/** `lexNumCmp`, which compares digit runs inside names by value, and the dotted-name comparison on it. */
module LexNum {
  import opened BsonTypes
  import opened BsonOrder

  predicate IsDigit(c: CChar) {
    0x30 <= c <= 0x39
  }

  /** A `char` is signed. */
  function Signed(c: CChar): int {
    if c < 128 then c else c - 256
  }

  function DigitRun(s: CString): (n: nat)
    ensures n <= |s| && (forall i :: 0 <= i < n ==> IsDigit(s[i])) && (n < |s| ==> !IsDigit(s[n]))
  {
    if s == [] || !IsDigit(s[0]) then 0 else 1 + DigitRun(s[1..])
  }

  function Pow10(n: nat): (p: nat)
    ensures p >= 1
  {
    if n == 0 then 1 else 10 * Pow10(n - 1)
  }

  predicate Digits(d: CString) {
    forall i :: 0 <= i < |d| ==> IsDigit(d[i])
  }

  function Digit(c: CChar): (v: nat)
    requires IsDigit(c)
    ensures v <= 9
  {
    var x: int := c;
    x - 0x30
  }

  function ValueOf(d: CString): nat
    requires Digits(d)
  {
    if d == [] then 0 else Digit(d[0]) * Pow10(|d| - 1) + ValueOf(d[1..])
  }

  /**
   The tokens of a name: a character by its signed value, a whole digit run by its numeric value and
   above every character, byte 255 above both.
   */
  function NameTokens(s: CString): seq<Token> {
    if s == [] then []
    else if s[0] == 255 then [Num(129.0)] + NameTokens(s[1..])
    else if IsDigit(s[0]) then
      var n := DigitRun(s);
      [Num(128.0)] + ([Num(ValueOf(s[..n]) as real)] + NameTokens(s[n..]))
    else [Num(Signed(s[0]) as real)] + NameTokens(s[1..])
  }

  // ---- Digit strings without leading zeros: longer is greater, then byte order is numeric order ----

  lemma {:induction false} Scaled(x: nat, y: nat, p: nat)
    ensures x < y ==> x * p + p <= y * p
    decreases y
  {
    if x < y {
      assert y * p == (y - 1) * p + p;
      Scaled(x, y - 1, p);
    }
  }

  lemma {:induction false} ValueBound(d: CString)
    requires Digits(d)
    ensures ValueOf(d) < Pow10(|d|)
    ensures d != [] && d[0] != 0x30 ==> ValueOf(d) >= Pow10(|d| - 1)
  {
    if d != [] {
      ValueBound(d[1..]);
      Scaled(Digit(d[0]), 10, Pow10(|d| - 1));
      Scaled(0, Digit(d[0]), Pow10(|d| - 1));
    }
  }

  lemma {:induction false} PowMonotone(m: nat, n: nat)
    requires m <= n
    ensures Pow10(m) <= Pow10(n)
    decreases n
  {
    if m < n {
      PowMonotone(m, n - 1);
    }
  }

  lemma {:induction false} SameLength(a: CString, b: CString)
    requires Digits(a) && Digits(b) && |a| == |b|
    ensures MemCmp(a, b) == Sign(ValueOf(a) - ValueOf(b))
    decreases |a|
  {
    if a != [] {
      SameLength(a[1..], b[1..]);
      ValueBound(a[1..]);
      ValueBound(b[1..]);
      Scaled(Digit(a[0]), Digit(b[0]), Pow10(|a| - 1));
      Scaled(Digit(b[0]), Digit(a[0]), Pow10(|a| - 1));
    }
  }

  lemma LongerIsGreater(a: CString, b: CString)
    requires Digits(a) && Digits(b) && |a| > |b| && a[0] != 0x30
    ensures ValueOf(a) > ValueOf(b)
  {
    ValueBound(a);
    ValueBound(b);
    PowMonotone(|b|, |a| - 1);
  }

  /** Stripping the zeros in front leaves the value. */
  lemma {:induction false} ZerosDropped(d: CString, k: nat)
    requires Digits(d) && k <= |d| && forall i :: 0 <= i < k ==> d[i] == 0x30
    ensures ValueOf(d[k..]) == ValueOf(d)
    decreases k
  {
    if k > 0 {
      ZerosDropped(d[1..], k - 1);
      assert d[1..][k - 1..] == d[k..];
    } else {
      assert d[0..] == d;
    }
  }

  lemma {:induction false} RunOf(s: CString, n: nat)
    requires n <= |s| && Digits(s[..n]) && (n < |s| ==> !IsDigit(s[n]))
    ensures DigitRun(s) == n
    decreases n
  {
    if n > 0 {
      assert IsDigit(s[..n][0]);
      assert s[1..][..n - 1] == s[..n][1..];
      RunOf(s[1..], n - 1);
    }
  }

  // ---- The loop ----

  method SkipZeros(s: CString, at: nat) returns (i: nat)
    requires at <= |s|
    ensures at <= i <= |s| && (forall k :: at <= k < i ==> s[k] == 0x30) && (i < |s| ==> s[i] != 0x30)
  {
    i := at;
    while i < |s| && s[i] == 0x30
      invariant at <= i <= |s| && forall k :: at <= k < i ==> s[k] == 0x30
    {
      i := i + 1;
    }
  }

  method SkipDigits(s: CString, at: nat) returns (i: nat)
    requires at <= |s|
    ensures at <= i <= |s| && (forall k :: at <= k < i ==> IsDigit(s[k])) && (i < |s| ==> !IsDigit(s[i]))
  {
    i := at;
    while i < |s| && IsDigit(s[i])
      invariant at <= i <= |s| && forall k :: at <= k < i ==> IsDigit(s[k])
    {
      i := i + 1;
    }
  }

  /** The run at `i` has its value from `z` on, past its zeros, up to `e`. */
  lemma RunTokens(s: CString, i: nat, z: nat, e: nat)
    requires i < |s| && i <= z <= e <= |s| && IsDigit(s[i])
    requires (forall k :: i <= k < z ==> s[k] == 0x30) && (forall k :: z <= k < e ==> IsDigit(s[k]))
    requires e < |s| ==> !IsDigit(s[e])
    ensures i < e && Digits(s[z..e])
    ensures NameTokens(s[i..]) == [Num(128.0)] + ([Num(ValueOf(s[z..e]) as real)] + NameTokens(s[e..]))
  {
    var t, n := s[i..], e - i;
    assert t[..n] == s[i..e] && t[n..] == s[e..];
    assert Digits(t[..n]);
    RunOf(t, n);
    assert t[..n][z - i..] == s[z..e];
    ZerosDropped(t[..n], z - i);
  }

  /** Two runs side by side, as the source compares them. */
  function CompareRuns(a: CString, b: CString): (r: int)
    requires Digits(a) && Digits(b)
  {
    if |a| > |b| then 1 else if |a| < |b| then -1 else MemCmp(a, b)
  }

  lemma RunsByValue(a: CString, b: CString)
    requires Digits(a) && Digits(b)
    requires (a != [] ==> a[0] != 0x30) && (b != [] ==> b[0] != 0x30)
    ensures CompareRuns(a, b) == Sign(ValueOf(a) - ValueOf(b))
  {
    if |a| > |b| {
      LongerIsGreater(a, b);
    } else if |a| < |b| {
      LongerIsGreater(b, a);
    } else {
      SameLength(a, b);
    }
  }

  lemma HeadsDecide(s: Token, t: Token, x: seq<Token>, y: seq<Token>)
    ensures Lex([s] + x, [t] + y) == if s == t then Lex(x, y) else CompareTokens(s, t)
  {
    LexOne(s, t);
    LexConcat([s], [t], x, y);
  }

  function HeadToken(s: CString): Token
    requires s != []
  {
    if s[0] == 255 then Num(129.0) else if IsDigit(s[0]) then Num(128.0) else Num(Signed(s[0]) as real)
  }

  /** What the heads decide, and what is left when they are the same character. */
  lemma Heads(s: CString, t: CString)
    requires s != [] && t != []
    ensures HeadToken(s) != HeadToken(t) ==>
              Lex(NameTokens(s), NameTokens(t)) == CompareTokens(HeadToken(s), HeadToken(t))
    ensures s[0] == t[0] && !IsDigit(s[0]) ==>
              Lex(NameTokens(s), NameTokens(t)) == Lex(NameTokens(s[1..]), NameTokens(t[1..]))
  {
    hide Lex;
    var x, y := NameTokens(s)[1..], NameTokens(t)[1..];
    assert NameTokens(s) == [HeadToken(s)] + x && NameTokens(t) == [HeadToken(t)] + y;
    HeadsDecide(HeadToken(s), HeadToken(t), x, y);
  }

  lemma RunsDecide(v: nat, w: nat, x: seq<Token>, y: seq<Token>)
    ensures Lex([Num(128.0)] + ([Num(v as real)] + x), [Num(128.0)] + ([Num(w as real)] + y))
            == if v == w then Lex(x, y) else Sign(v - w)
  {
    hide Lex;
    HeadsDecide(Num(128.0), Num(128.0), [Num(v as real)] + x, [Num(w as real)] + y);
    HeadsDecide(Num(v as real), Num(w as real), x, y);
  }

  /** `lexNumCmp`: lexicographic comparison of the tokens; the source returns some number of that sign. */
  method LexNumCmp(s1: CString, s2: CString) returns (r: int)
    ensures r == Lex(NameTokens(s1), NameTokens(s2))
  {
    hide Lex, NameTokens;
    var i, j := 0, 0;
    assert s1[0..] == s1 && s2[0..] == s2;
    while i < |s1| && j < |s2|
      invariant i <= |s1| && j <= |s2|
      invariant Lex(NameTokens(s1[i..]), NameTokens(s2[j..])) == Lex(NameTokens(s1), NameTokens(s2))
      decreases |s1| - i
    {
      Heads(s1[i..], s2[j..]);
      var p1, p2 := s1[i] == 255, s2[j] == 255;
      if p1 && !p2 {
        return 1;
      }
      if p2 && !p1 {
        return -1;
      }
      var n1, n2 := IsDigit(s1[i]), IsDigit(s2[j]);
      if n1 && n2 {
        var z1 := SkipZeros(s1, i);
        var z2 := SkipZeros(s2, j);
        var e1 := SkipDigits(s1, z1);
        var e2 := SkipDigits(s2, z2);
        RunTokens(s1, i, z1, e1);
        RunTokens(s2, j, z2, e2);
        RunsByValue(s1[z1..e1], s2[z2..e2]);
        RunsDecide(ValueOf(s1[z1..e1]), ValueOf(s2[z2..e2]), NameTokens(s1[e1..]), NameTokens(s2[e2..]));
        var len1, len2 := e1 - z1, e2 - z2;
        if len1 > len2 {
          return 1;
        } else if len2 > len1 {
          return -1;
        }
        var result := MemCmp(s1[z1..e1], s2[z2..e2]);
        if result != 0 {
          return result;
        }
        i, j := e1, e2;
        continue;
      }
      if n1 {
        return 1;
      }
      if n2 {
        return -1;
      }
      if Signed(s1[i]) > Signed(s2[j]) {
        return 1;
      }
      if Signed(s2[j]) > Signed(s1[i]) {
        return -1;
      }
      assert s1[i..][1..] == s1[i + 1..] && s2[j..][1..] == s2[j + 1..];
      i, j := i + 1, j + 1;
    }
    EndOfNames(s1[i..], s2[j..]);
    if i < |s1| {
      return 1;
    }
    if j < |s2| {
      return -1;
    }
    return 0;
  }

  lemma EndOfNames(s: CString, t: CString)
    requires s == [] || t == []
    ensures Lex(NameTokens(s), NameTokens(t)) == if s != [] then 1 else if t != [] then -1 else 0
  {
  }

  /** Hence a total preorder, in which names are equal exactly when their tokens are. */
  lemma LexNumPreorder(a: CString, b: CString, c: CString)
    ensures Lex(NameTokens(b), NameTokens(a)) == -Lex(NameTokens(a), NameTokens(b))
    ensures Lex(NameTokens(a), NameTokens(b)) == 0 <==> NameTokens(a) == NameTokens(b)
    ensures Lex(NameTokens(a), NameTokens(b)) <= 0 && Lex(NameTokens(b), NameTokens(c)) <= 0
            ==> Lex(NameTokens(a), NameTokens(c)) <= 0
  {
    hide Lex, NameTokens;
    LexEqual(NameTokens(a), NameTokens(b));
    if Lex(NameTokens(a), NameTokens(b)) <= 0 && Lex(NameTokens(b), NameTokens(c)) <= 0 {
      LexTrans(NameTokens(a), NameTokens(b), NameTokens(c));
    }
  }

  // ---- What the tokens mean ----

  /**
   How two characters are ordered that start a difference: bytes from 128 to 254, then ASCII without
   the digits, then a digit run, then byte 255; inside the first two by their codes.
   */
  predicate CharBefore(c: CChar, d: CChar) {
    if c == 255 then false
    else if d == 255 then true
    else if IsDigit(c) then false
    else if IsDigit(d) then true
    else if c >= 128 then d < 128 || c < d
    else d < 128 && c < d
  }

  /** The end of a name comes first, then the character decides, whatever follows. */
  lemma HeadsInOrder(s: CString, t: CString)
    requires t != [] && (s == [] || CharBefore(s[0], t[0]))
    ensures Lex(NameTokens(s), NameTokens(t)) == -1
  {
    hide Lex, NameTokens;
    if s == [] {
      EndOfNames(t, s);
      LexEqual(NameTokens(s), NameTokens(t));
    } else {
      Heads(s, t);
    }
  }

  /** Of two characters that are not both digits one comes first, or they are the same. */
  lemma CharsTotal(c: CChar, d: CChar)
    ensures !(CharBefore(c, d) && CharBefore(d, c))
    ensures CharBefore(c, d) || CharBefore(d, c) || c == d || (IsDigit(c) && IsDigit(d))
  {
  }

  /** A shared character, or digit runs of one value, leave the comparison to what follows. */
  lemma HeadsShared(c: CChar, s: CString, t: CString)
    requires !IsDigit(c)
    ensures Lex(NameTokens([c] + s), NameTokens([c] + t)) == Lex(NameTokens(s), NameTokens(t))
  {
    hide Lex, NameTokens;
    Heads([c] + s, [c] + t);
    assert ([c] + s)[1..] == s && ([c] + t)[1..] == t;
  }

  /** Digit runs are compared by their values, leading zeros or not, and decide unless they are equal. */
  lemma RunsInOrder(a: CString, s: CString, b: CString, t: CString)
    requires a != [] && Digits(a) && (s == [] || !IsDigit(s[0]))
    requires b != [] && Digits(b) && (t == [] || !IsDigit(t[0]))
    ensures Lex(NameTokens(a + s), NameTokens(b + t)) ==
            if ValueOf(a) == ValueOf(b) then Lex(NameTokens(s), NameTokens(t)) else Sign(ValueOf(a) - ValueOf(b))
  {
    hide *;
    RunInFront(a, s);
    RunInFront(b, t);
    RunsDecide(ValueOf(a), ValueOf(b), NameTokens(s), NameTokens(t));
  }

  lemma RunInFront(a: CString, s: CString)
    requires a != [] && Digits(a) && (s == [] || !IsDigit(s[0]))
    ensures NameTokens(a + s) == [Num(128.0)] + ([Num(ValueOf(a) as real)] + NameTokens(s))
  {
    hide NameTokens;
    RunTokens(a + s, 0, 0, |a|);
    assert (a + s)[0..] == a + s && (a + s)[0..|a|] == a && (a + s)[|a|..] == s;
  }
}
