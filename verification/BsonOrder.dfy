/** Numbers and strings as the comparison sees them, and lexicographic order on tokens. */
module BsonOrder {
  import opened Bytes
  import opened BsonTypes

  // ---- Tokens: End, then any non-finite number, then the numbers ----

  datatype Token = End | NonFinite | Num(x: real)

  function CompareTokens(a: Token, b: Token): int {
    if a == b then 0
    else if a.End? || (a.NonFinite? && b.Num?) || (a.Num? && b.Num? && a.x < b.x) then -1
    else 1
  }

  /** Lexicographic comparison, a proper prefix being less. */
  function Lex(a: seq<Token>, b: seq<Token>): (r: int)
    ensures -1 <= r <= 1
  {
    if a == [] then (if b == [] then 0 else -1)
    else if b == [] then 1
    else if CompareTokens(a[0], b[0]) != 0 then CompareTokens(a[0], b[0])
    else Lex(a[1..], b[1..])
  }

  /** Neither is a proper prefix of the other. */
  predicate Decided(a: seq<Token>, b: seq<Token>) {
    if a == [] || b == [] then a == b else a[0] != b[0] || Decided(a[1..], b[1..])
  }

  lemma {:induction false} LexEqual(a: seq<Token>, b: seq<Token>)
    ensures Lex(a, b) == 0 <==> a == b
    ensures Lex(b, a) == -Lex(a, b)
  {
    if a != [] && b != [] {
      LexEqual(a[1..], b[1..]);
      assert a == [a[0]] + a[1..] && b == [b[0]] + b[1..];
    }
  }

  lemma {:induction false} LexTrans(a: seq<Token>, b: seq<Token>, c: seq<Token>)
    requires Lex(a, b) <= 0 && Lex(b, c) <= 0
    ensures Lex(a, c) <= 0
    ensures Lex(a, c) == 0 ==> Lex(a, b) == 0 && Lex(b, c) == 0
  {
    if a != [] && b != [] && c != [] {
      if a[0] == b[0] == c[0] {
        LexTrans(a[1..], b[1..], c[1..]);
      }
    }
  }

  /** What is appended counts only when the heads are equal. */
  lemma {:induction false} LexConcat(a: seq<Token>, b: seq<Token>, x: seq<Token>, y: seq<Token>)
    requires Decided(a, b)
    ensures Lex(a + x, b + y) == if Lex(a, b) != 0 then Lex(a, b) else Lex(x, y)
    ensures Decided(x, y) || Lex(a, b) != 0 ==> Decided(a + x, b + y)
  {
    if a == [] || b == [] {
      assert a + x == x && b + y == y;
    } else {
      assert (a + x)[1..] == a[1..] + x && (b + y)[1..] == b[1..] + y;
      if a[0] == b[0] {
        LexConcat(a[1..], b[1..], x, y);
      }
    }
  }

  lemma LexOne(s: Token, t: Token)
    ensures Lex([s], [t]) == CompareTokens(s, t) && Decided([s], [t])
  {
    assert [s][1..] == [] && [t][1..] == [];
  }

  // ---- strcmp and memcmp ----

  function Sign(x: int): int {
    if x < 0 then -1 else if x > 0 then 1 else 0
  }

  /** `strcmp`: up to the first NUL, or to the end of the string, where its own NUL stands. */
  function StrCmp(a: seq<byte>, b: seq<byte>): (r: int)
    ensures -1 <= r <= 1
  {
    var x: int, y: int := if a == [] then 0 else a[0], if b == [] then 0 else b[0];
    if x != y then Sign(x - y)
    else if x == 0 then 0
    else StrCmp(a[1..], b[1..])
  }

  function MemCmp(a: seq<byte>, b: seq<byte>): (r: int)
    requires |a| == |b|
    ensures -1 <= r <= 1
  {
    if a == [] then 0
    else if a[0] != b[0] then Sign(a[0] as int - b[0] as int)
    else MemCmp(a[1..], b[1..])
  }

  function TextTokens(s: seq<byte>): seq<Token> {
    if s == [] || s[0] == 0 then [End] else [Num(s[0] as real)] + TextTokens(s[1..])
  }

  function ByteTokens(s: seq<byte>): (t: seq<Token>)
    ensures |t| == |s|
  {
    if s == [] then [] else [Num(s[0] as real)] + ByteTokens(s[1..])
  }

  lemma {:induction false} StrCmpByTokens(a: seq<byte>, b: seq<byte>)
    ensures StrCmp(a, b) == Lex(TextTokens(a), TextTokens(b)) && Decided(TextTokens(a), TextTokens(b))
  {
    if a != [] && b != [] && a[0] == b[0] != 0 {
      StrCmpByTokens(a[1..], b[1..]);
      assert TextTokens(a)[1..] == TextTokens(a[1..]) && TextTokens(b)[1..] == TextTokens(b[1..]);
    }
  }

  lemma {:induction false} MemCmpByTokens(a: seq<byte>, b: seq<byte>)
    requires |a| == |b|
    ensures MemCmp(a, b) == Lex(ByteTokens(a), ByteTokens(b)) && Decided(ByteTokens(a), ByteTokens(b))
  {
    if a != [] && a[0] == b[0] {
      MemCmpByTokens(a[1..], b[1..]);
      assert ByteTokens(a)[1..] == ByteTokens(a[1..]) && ByteTokens(b)[1..] == ByteTokens(b[1..]);
    }
  }

  /** A length compared first, then as many bytes. */
  lemma SizedByTokens(a: seq<byte>, b: seq<byte>, x: int, y: int)
    requires |a| - |b| == x - y
    ensures var s, t := [Num(x as real)] + ByteTokens(a), [Num(y as real)] + ByteTokens(b);
            && Decided(s, t)
            && Lex(s, t) == if x != y then Sign(x - y) else MemCmp(a, b)
  {
    LexOne(Num(x as real), Num(y as real));
    if |a| == |b| {
      MemCmpByTokens(a, b);
    }
    LexConcat([Num(x as real)], [Num(y as real)], ByteTokens(a), ByteTokens(b));
  }

  // ---- Numbers ----

  const TWO53: int := 0x20_0000_0000_0000

  function Pow2(e: int): real
    decreases if e < 0 then -e else e
  {
    if e == 0 then 1.0 else if e > 0 then 2.0 * Pow2(e - 1) else Pow2(e + 1) / 2.0
  }

  function Mantissa(b: DoubleBits): nat {
    b[0] as int + 0x100 * (b[1] as int) + 0x1_0000 * (b[2] as int) + 0x100_0000 * (b[3] as int)
    + 0x1_0000_0000 * (b[4] as int) + 0x100_0000_0000 * (b[5] as int) + 0x1_0000_0000_0000 * (b[6] as int % 16)
  }

  function Exponent(b: DoubleBits): nat {
    b[7] as int % 128 * 16 + b[6] as int / 16
  }

  /** An IEEE 754 binary64 taken as a real; infinities and NaNs are one. */
  function DoubleToken(b: DoubleBits): (t: Token)
    ensures !t.End?
  {
    var sign := if b[7] < 128 then 1.0 else -1.0;
    if Exponent(b) == 2047 then NonFinite
    else if Exponent(b) == 0 then Num(sign * Mantissa(b) as real * Pow2(-1074))
    else Num(sign * (TWO53 / 2 + Mantissa(b)) as real * Pow2(Exponent(b) - 1075))
  }

  /** `m` rounded to 53 significant bits, ties to even, found by doubling the unit until it fits. */
  function Rounded(m: nat, unit: nat): nat
    requires unit > 0
    decreases if m > unit then m - unit else 0
  {
    if m < TWO53 * unit then
      var q, r := m / unit, m % unit;
      if 2 * r < unit || (2 * r == unit && q % 2 == 0) then q * unit else (q + 1) * unit
    else
      Rounded(m, 2 * unit)
  }

  /** `(double)` of a `long long`. */
  function LongAsDouble(l: Int64): int {
    var m: int := l;
    if m < 0 then 0 - Rounded(-m, 1) else Rounded(m, 1)
  }

  predicate ExactLong(l: Int64) {
    LongAsDouble(l) == l
  }

  /** Up to 2^53 in magnitude the conversion is exact. */
  lemma SmallLongsExact(l: Int64)
    requires 0 - TWO53 <= l <= TWO53
    ensures ExactLong(l)
  {
    var m: int := if l < 0 then 0 - l else l;
    if m == TWO53 {
      assert Rounded(m, 2) == m;
    }
  }
}
