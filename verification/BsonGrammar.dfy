/**
 The grammar of the BSON specification 1.0, as a relation between bytes and documents that knows
 nothing of how they are written or read; and the proof that it holds of what the builder's
 definition writes, and of nothing else.
 */
module BsonGrammar {
  import opened Bytes
  import opened BsonTypes
  import opened BsonEncoding

  const ZERO: seq<byte> := [0x00]

  /** `int32`: four bytes, two's complement. */
  predicate IsInt32(b: seq<byte>, x: int) {
    |b| == 4 && -0x8000_0000 <= x < 0x8000_0000 && (LowFirst(b) == x || LowFirst(b) == x + 0x1_0000_0000)
  }

  /** `int64`. */
  predicate IsInt64(b: seq<byte>, x: int) {
    && |b| == 8 && -0x8000_0000_0000_0000 <= x < 0x8000_0000_0000_0000
    && (LowFirst(b) == x || LowFirst(b) == x + 0x1_0000_0000_0000_0000)
  }

  predicate IsUInt64(b: seq<byte>, x: int) {
    |b| == 8 && LowFirst(b) == x
  }

  predicate IsCString(b: seq<byte>, s: CString) {
    b == s + ZERO
  }

  /** `string`: an int32 that counts the bytes and a NUL, and these. */
  predicate IsString(b: seq<byte>, t: seq<byte>) {
    |b| >= 5 && IsInt32(b[..4], |t| + 1) && b[4..] == t + ZERO
  }

  predicate IsBinary(b: seq<byte>, subtype: byte, data: seq<byte>) {
    |b| >= 5 && IsInt32(b[..4], |data|) && b[4] == subtype && b[5..] == data
  }

  /** The byte an element starts with. */
  function TypeByte(v: Value): byte {
    match v
    case Double(_) => 0x01
    case Str(_) => 0x02
    case Object(_) => 0x03
    case Array(_) => 0x04
    case BinData(_, _) => 0x05
    case Undefined => 0x06
    case Oid(_) => 0x07
    case Bool(_) => 0x08
    case Date(_) => 0x09
    case Null => 0x0A
    case RegEx(_, _) => 0x0B
    case DBRef(_, _) => 0x0C
    case Code(_) => 0x0D
    case Symbol(_) => 0x0E
    case CodeWScope(_, _) => 0x0F
    case Int(_) => 0x10
    case Timestamp(_) => 0x11
    case Long(_) => 0x12
    case MinKey => 0xFF
    case MaxKey => 0x7F
  }

  /** What follows the name of an element. */
  predicate IsValue(b: seq<byte>, v: Value)
    decreases v, 0
  {
    match v
    case MinKey | Undefined | Null | MaxKey => b == []
    case Double(bits) => b == bits
    case Str(t) => IsString(b, t)
    case Object(d) => IsDocument(b, d)
    case Array(d) => IsDocument(b, d)
    case BinData(subtype, data) => IsBinary(b, subtype, data)
    case Oid(id) => b == id
    case Bool(x) => b == if x then [0x01] else [0x00]
    case Date(x) => IsUInt64(b, x)
    case RegEx(p, o) => |b| > |p| && IsCString(b[..|p| + 1], p) && IsCString(b[|p| + 1..], o)
    case DBRef(ns, id) => |b| >= 12 && IsString(b[..|b| - 12], ns) && b[|b| - 12..] == id
    case Code(t) => IsString(b, t)
    case Symbol(t) => IsString(b, t)
    case CodeWScope(c, scope) =>
      var k := 4 + |c| + 5;
      |b| >= k && IsInt32(b[..4], |b|) && IsString(b[4..k], c) && IsDocument(b[k..], scope)
    case Int(x) => IsInt32(b, x)
    case Timestamp(x) => IsUInt64(b, x)
    case Long(x) => IsInt64(b, x)
  }

  predicate IsElement(b: seq<byte>, f: Field)
    decreases f, 0
  {
    var n := |f.name|;
    |b| >= n + 2 && b[0] == TypeByte(f.value) && IsCString(b[1..n + 2], f.name) && IsValue(b[n + 2..], f.value)
  }

  /** `e_list`. */
  predicate IsList(b: seq<byte>, d: Doc)
    decreases d, 0
  {
    if d == [] then b == []
    else exists k :: 0 <= k <= |b| && IsElement(b[..k], d[0]) && IsList(b[k..], d[1..])
  }

  /** `document`: an int32 that counts all its bytes, the elements, a NUL. */
  predicate IsDocument(b: seq<byte>, d: Doc)
    decreases d, 1
  {
    |b| >= 5 && IsInt32(b[..4], |b|) && IsList(b[4..|b| - 1], d) && b[|b| - 1] == 0
  }

  // ---- Numbers ----

  lemma FourBytes(b: seq<byte>, v: nat)
    requires v < WORD
    ensures |b| == 4 && LowFirst(b) == v <==> b == WordBytes(v)
  {
    hide WordBytes, WordOf;
    if |b| == 4 {
      LowFour(b);
      assert b[..4] == b && b[4..] == [];
      WordBytesRoundTrip(b);
      WordRoundTrip(v);
    }
  }

  lemma WordBytesRoundTrip(b: seq<byte>)
    requires |b| == 4
    ensures WordBytes(WordOf(b)) == b
  {
    SplitWord(b[0], b[1], b[2], b[3]);
  }

  lemma SplitWord(x: nat, y: nat, z: nat, w: nat)
    requires x < 256 && y < 256 && z < 256 && w < 256
    ensures var v := x + 256 * y + 65536 * z + 16777216 * w;
            v % 256 == x && v / 256 % 256 == y && v / 65536 % 256 == z && v / 16777216 == w
  {
    var v := x + 256 * y + 65536 * z + 16777216 * w;
    assert v / 256 == y + 256 * z + 65536 * w;
    assert v / 65536 == z + 256 * w;
  }

  lemma EightBytes(b: seq<byte>, v: nat)
    requires v < DWORD
    ensures |b| == 8 && LowFirst(b) == v <==> b == Le8(v)
  {
    hide WordBytes, WordOf, LowFirst;
    var lo, hi := v % WORD, v / WORD;
    assert v % DWORD == v && hi < WORD;
    if |b| == 8 {
      LowFour(b);
      FourBytes(b[..4], lo);
      FourBytes(b[4..], hi);
      assert b == b[..4] + b[4..];
      assert Le8(v)[..4] == WordBytes(lo) && Le8(v)[4..] == WordBytes(hi);
      LowFour(b[..4]);
      assert b[..4][..4] == b[..4] && b[..4][4..] == [] && LowFirst([]) == 0 by { EmptyLow(); }
      ByWords(WordOf(b[..4]), LowFirst(b[4..]), v);
    }
  }

  lemma EmptyLow()
    ensures LowFirst([]) == 0
  {
  }

  lemma ByWords(lo: nat, hi: nat, v: nat)
    requires lo < WORD
    ensures lo + WORD * hi == v <==> lo == v % WORD && hi == v / WORD
  {
  }

  lemma Int32Bytes(b: seq<byte>, x: int)
    ensures IsInt32(b, x) <==> -0x8000_0000 <= x < 0x8000_0000 && b == Le4(x)
  {
    hide WordBytes, LowFirst;
    if -0x8000_0000 <= x < 0x8000_0000 {
      var u := if x < 0 then x + WORD else x;
      assert x % WORD == u;
      FourBytes(b, u);
      LowBound(b);
    }
  }

  lemma LowBound(b: seq<byte>)
    ensures |b| == 4 ==> LowFirst(b) < WORD
    ensures |b| == 8 ==> LowFirst(b) < DWORD
  {
    hide WordOf;
    if |b| == 4 || |b| == 8 {
      LowFour(b);
      if |b| == 8 {
        LowFour(b[4..]);
      }
    }
  }

  lemma Int64Bytes(b: seq<byte>, x: Int64)
    ensures IsInt64(b, x) <==> b == Le8(x)
  {
    hide WordBytes, LowFirst;
    var y: int := x;
    var u := if y < 0 then y + DWORD else y;
    assert y % DWORD == u && Le8(y) == Le8(u);
    EightBytes(b, u);
    LowBound(b);
  }

  // ---- The grammar and the definition of the encoding ----

  lemma StringBytes(b: seq<byte>, t: seq<byte>)
    ensures IsString(b, t) <==> b == EncText(t) && |t| + 1 < INT_LIMIT
  {
    hide Le4, IsInt32;
    if |b| >= 5 {
      Int32Bytes(b[..4], |t| + 1);
      assert b == b[..4] + b[4..];
      assert EncText(t)[..4] == Le4(|t| + 1) && EncText(t)[4..] == t + ZERO;
    }
  }

  lemma BinaryBytes(b: seq<byte>, subtype: byte, data: seq<byte>)
    ensures IsBinary(b, subtype, data) <==> b == Le4(|data|) + ([subtype] + data) && |data| < INT_LIMIT
  {
    hide Le4, IsInt32;
    var e := Le4(|data|) + ([subtype] + data);
    assert e[..4] == Le4(|data|) && e[4] == subtype && e[5..] == data;
    if |b| >= 5 {
      Int32Bytes(b[..4], |data|);
      assert b == b[..4] + ([b[4]] + b[5..]);
    }
  }

  lemma RegExBytes(b: seq<byte>, p: CString, o: CString)
    ensures IsValue(b, RegEx(p, o)) <==> b == EncValue(RegEx(p, o))
  {
    var e := EncValue(RegEx(p, o));
    assert e[..|p| + 1] == p + ZERO && e[|p| + 1..] == o + ZERO;
    if |b| > |p| {
      assert b == b[..|p| + 1] + b[|p| + 1..];
    }
  }

  lemma DBRefBytes(b: seq<byte>, ns: seq<byte>, id: OidBytes)
    ensures IsValue(b, DBRef(ns, id)) <==> b == EncValue(DBRef(ns, id)) && |ns| + 1 < INT_LIMIT
  {
    hide EncText, IsString;
    var e := EncValue(DBRef(ns, id));
    assert e[..|e| - 12] == EncText(ns) && e[|e| - 12..] == id;
    if |b| >= 12 {
      StringBytes(b[..|b| - 12], ns);
      assert b == b[..|b| - 12] + b[|b| - 12..];
    }
  }

  /** The grammar describes the values of limited size exactly as they are encoded. */
  lemma {:induction false} ValueBytes(b: seq<byte>, v: Value)
    requires |b| < INT_LIMIT
    ensures IsValue(b, v) <==> b == EncValue(v)
    decreases v, 0
  {
    match v
    case Object(d) => hide *; ValueOfDocument(b, v, d); DocumentBytes(b, d);
    case Array(d) => hide *; ValueOfDocument(b, v, d); DocumentBytes(b, d);
    case CodeWScope(c, scope) =>
      hide *;
      var k := 4 + |c| + 5;
      if |b| >= k {
        DocumentBytes(b[k..], scope);
      }
      CodeBytes(b, c, scope);
    case _ => LeafBytes(b, v);
  }

  lemma ValueOfDocument(b: seq<byte>, v: Value, d: Doc)
    requires v == Object(d) || v == Array(d)
    ensures (IsValue(b, v) <==> IsDocument(b, d)) && EncValue(v) == EncDoc(d)
  {
    hide IsDocument, EncDoc;
  }

  lemma CodeBytes(b: seq<byte>, c: CString, scope: Doc)
    requires |b| < INT_LIMIT
    requires var k := 4 + |c| + 5; |b| >= k ==> (IsDocument(b[k..], scope) <==> b[k..] == EncDoc(scope))
    ensures IsValue(b, CodeWScope(c, scope)) <==> b == EncValue(CodeWScope(c, scope))
  {
    hide Le4, IsInt32, EncDoc, IsDocument, EncText, IsString;
    var e, k := EncValue(CodeWScope(c, scope)), 4 + |c| + 5;
    CodeSplit(c, scope);
    if |b| >= k {
      Int32Bytes(b[..4], |b|);
      StringBytes(b[4..k], c);
      assert b == b[..4] + (b[4..k] + b[k..]);
    }
  }

  lemma CodeSplit(c: CString, scope: Doc)
    ensures var e, k := EncValue(CodeWScope(c, scope)), 4 + |c| + 5;
            |e| >= k && e[..4] == Le4(|e|) && e[4..k] == EncText(c) && e[k..] == EncDoc(scope)
  {
    hide Le4, EncDoc;
  }

  lemma LeafBytes(b: seq<byte>, v: Value)
    requires |b| < INT_LIMIT && !v.Object? && !v.Array? && !v.CodeWScope?
    ensures IsValue(b, v) <==> b == EncValue(v)
  {
    hide Le4, Le8, IsInt32, IsInt64, IsUInt64, IsString, EncText, IsBinary;
    match v
    case Str(t) => TextBytes(b, t);
    case Code(t) => TextBytes(b, t);
    case Symbol(t) => TextBytes(b, t);
    case BinData(s, d) => BinaryBytes(b, s, d);
    case Date(x) => UInt64Bytes(b, x);
    case Timestamp(x) => UInt64Bytes(b, x);
    case RegEx(p, o) => RegExBytes(b, p, o);
    case DBRef(ns, id) => DBRefBytes(b, ns, id); TextSize(ns);
    case Int(x) => Int32Bytes(b, x);
    case Long(x) => Int64Bytes(b, x);
    case _ =>
  }

  lemma TextBytes(b: seq<byte>, t: seq<byte>)
    requires |b| < INT_LIMIT
    ensures IsString(b, t) <==> b == EncText(t)
  {
    StringBytes(b, t);
  }

  lemma UInt64Bytes(b: seq<byte>, x: UInt64)
    ensures IsUInt64(b, x) <==> b == Le8(x)
  {
    hide LowFirst, Le8;
    EightBytes(b, x);
  }

  lemma {:induction false} ElementBytes(b: seq<byte>, f: Field)
    requires |b| < INT_LIMIT
    ensures IsElement(b, f) <==> b == EncField(f)
    decreases f, 0
  {
    var n := |f.name|;
    if |b| >= n + 2 {
      ValueBytes(b[n + 2..], f.value);
    }
    hide EncValue, IsValue;
    var e := EncField(f);
    assert e[0] == TypeByte(f.value) && e[1..n + 2] == f.name + ZERO && e[n + 2..] == EncValue(f.value);
    if |b| >= n + 2 {
      assert b == [b[0]] + (b[1..n + 2] + b[n + 2..]);
      assert e == [e[0]] + (e[1..n + 2] + e[n + 2..]);
    }
  }

  lemma {:induction false} ListBytes(b: seq<byte>, d: Doc)
    requires |b| < INT_LIMIT
    ensures IsList(b, d) <==> b == EncBody(d)
    decreases d, 0
  {
    if d != [] {
      hide IsElement, EncField;
      forall k | 0 <= k <= |b|
        ensures IsElement(b[..k], d[0]) <==> b[..k] == EncField(d[0])
        ensures IsList(b[k..], d[1..]) <==> b[k..] == EncBody(d[1..])
      {
        ElementBytes(b[..k], d[0]);
        ListBytes(b[k..], d[1..]);
      }
      var x, y := EncField(d[0]), EncBody(d[1..]);
      if b == x + y {
        assert b[..|x|] == x && b[|x|..] == y;
      }
      assert forall k :: 0 <= k <= |b| ==> b == b[..k] + b[k..];
    }
  }

  /**
   The bytes of a document are those the grammar allows for it, and the only ones, up to the size
   an int32 can tell.
   */
  lemma {:induction false} DocumentBytes(b: seq<byte>, d: Doc)
    requires |b| < INT_LIMIT
    ensures IsDocument(b, d) <==> b == EncDoc(d)
    decreases d, 1
  {
    if |b| >= 5 {
      ListBytes(b[4..|b| - 1], d);
      Int32Bytes(b[..4], |b|);
    }
    hide IsList, EncBody, IsInt32, Le4;
    var e := EncDoc(d);
    assert e[..4] == Le4(|e|) && e[4..|e| - 1] == EncBody(d) && e[|e| - 1] == 0;
    if |b| >= 5 {
      assert b == b[..4] + (b[4..|b| - 1] + [b[|b| - 1]]);
      assert e == e[..4] + (e[4..|e| - 1] + [e[|e| - 1]]);
    }
  }

  /** The grammar is unambiguous: bytes are those of one document, and a document has one form. */
  lemma Unambiguous(b: seq<byte>, c: seq<byte>, d: Doc, e: Doc)
    requires |b| < INT_LIMIT && |c| < INT_LIMIT && IsDocument(b, d) && IsDocument(c, e)
    ensures b == c <==> d == e
  {
    hide IsDocument, EncDoc, ReadDoc;
    DocumentBytes(b, d);
    DocumentBytes(c, e);
    ReadDocRight(d, []);
    ReadDocRight(e, []);
    assert b + [] == b && c + [] == c;
  }

  /** Where the bytes stand that a reader looks at first. */
  lemma FirstBytes(b: seq<byte>, f: Field, d: Doc)
    requires IsDocument(b, [f] + d)
    ensures |b| >= |f.name| + 7
    ensures b[0] as int + 0x100 * b[1] as int + 0x1_0000 * b[2] as int + 0x100_0000 * b[3] as int == |b|
    ensures b[4] == TypeByte(f.value) && b[5..5 + |f.name|] == f.name && b[5 + |f.name|] == 0 && b[|b| - 1] == 0
  {
    hide IsElement, TypeByte;
    LengthBytes(b);
    var k := FirstElement(b, f, d);
    hide IsDocument;
    ElementHead(b[4..4 + k], f);
    var e := b[4..4 + k];
    var n := |f.name|;
    assert b[4] == e[0] && b[5 + n] == e[1 + n];
    SliceOfSlice(b, 4, 4 + k, 1, 1 + n);
  }

  lemma LengthBytes(b: seq<byte>)
    requires |b| >= 5 && IsInt32(b[..4], |b|)
    ensures b[0] as int + 0x100 * b[1] as int + 0x1_0000 * b[2] as int + 0x100_0000 * b[3] as int == |b|
  {
    LowBound(b[..4]);
    LowFour(b[..4]);
    assert b[..4][..4] == b[..4] && b[..4][4..] == [];
  }

  lemma FirstElement(b: seq<byte>, f: Field, d: Doc) returns (k: nat)
    requires IsDocument(b, [f] + d)
    ensures 4 + k <= |b| - 1 && IsElement(b[4..4 + k], f) && b[|b| - 1] == 0
  {
    hide IsElement;
    var body := b[4..|b| - 1];
    assert ([f] + d)[0] == f;
    k :| 0 <= k <= |body| && IsElement(body[..k], ([f] + d)[0]);
    assert body[..k] == b[4..4 + k];
  }

  lemma ElementHead(e: seq<byte>, f: Field)
    requires IsElement(e, f)
    ensures |e| >= |f.name| + 2 && e[0] == TypeByte(f.value) && e[1..1 + |f.name|] == f.name && e[1 + |f.name|] == 0
  {
    hide IsValue, TypeByte;
    var n := |f.name|;
    assert e[1..n + 2] == f.name + ZERO;
    assert e[n + 1] == e[1..n + 2][n] && e[1..n + 1] == e[1..n + 2][..n];
  }
}
