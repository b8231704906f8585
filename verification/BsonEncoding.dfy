/**
 The bytes of a BSON document (BSON specification 1.0, productions `document`, `e_list` and
 `element`), and reading them back the way the iterator and the element accessors do.
 */
module BsonEncoding {
  import opened Bytes
  import opened BsonTypes

  datatype Option<T> = None | Some(value: T)

  const NUL: seq<byte> := [0]

  function Le4(v: int): (b: seq<byte>)
    ensures |b| == 4
  {
    WordBytes(v % WORD)
  }

  function Le8(v: int): (b: seq<byte>)
    ensures |b| == 8
  {
    WordBytes(v % DWORD % WORD) + WordBytes(v % DWORD / WORD)
  }

  /** The `int` stored in four bytes. */
  function Int4(b: seq<byte>): Int32
    requires |b| == 4
  {
    if WordOf(b) < INT_LIMIT then WordOf(b) else WordOf(b) - WORD
  }

  function UInt8(b: seq<byte>): UInt64
    requires |b| == 8
  {
    WordOf(b[..4]) + WORD * WordOf(b[4..])
  }

  function Int8(b: seq<byte>): Int64
    requires |b| == 8
  {
    if UInt8(b) < DWORD / 2 then UInt8(b) else UInt8(b) - DWORD
  }

  lemma Int4RoundTrip(v: Int32)
    ensures Int4(Le4(v)) == v
  {
    WordRoundTrip(v % WORD);
  }

  lemma UInt8RoundTrip(v: int)
    ensures UInt8(Le8(v)) == v % DWORD
  {
    var u := v % DWORD;
    WordRoundTrip(u % WORD);
    WordRoundTrip(u / WORD);
    assert Le8(v)[..4] == WordBytes(u % WORD) && Le8(v)[4..] == WordBytes(u / WORD);
  }

  // ---- Encoding ----

  function TypeOf(v: Value): byte {
    match v
    case MinKey => 255
    case Double(_) => 1
    case Str(_) => 2
    case Object(_) => 3
    case Array(_) => 4
    case BinData(_, _) => 5
    case Undefined => 6
    case Oid(_) => 7
    case Bool(_) => 8
    case Date(_) => 9
    case Null => 10
    case RegEx(_, _) => 11
    case DBRef(_, _) => 12
    case Code(_) => 13
    case Symbol(_) => 14
    case CodeWScope(_, _) => 15
    case Int(_) => 16
    case Timestamp(_) => 17
    case Long(_) => 18
    case MaxKey => 127
  }

  /** A length-prefixed string: the length counts the final NUL. */
  function EncText(t: seq<byte>): seq<byte> {
    Le4(|t| + 1) + (t + NUL)
  }

  function EncValue(v: Value): seq<byte>
    decreases v
  {
    match v
    case MinKey | Undefined | Null | MaxKey => []
    case Double(bits) => bits
    case Str(t) => EncText(t)
    case Object(d) => EncDoc(d)
    case Array(d) => EncDoc(d)
    case BinData(subtype, data) => Le4(|data|) + ([subtype] + data)
    case Oid(id) => id
    case Bool(b) => [if b then 1 else 0]
    case Date(m) => Le8(m)
    case RegEx(p, o) => p + (NUL + (o + NUL))
    case DBRef(ns, id) => EncText(ns) + id
    case Code(t) => EncText(t)
    case Symbol(t) => EncText(t)
    case CodeWScope(c, scope) => Le4(4 + 4 + |c| + 1 + |EncDoc(scope)|) + (EncText(c) + EncDoc(scope))
    case Int(i) => Le4(i)
    case Timestamp(m) => Le8(m)
    case Long(l) => Le8(l)
  }

  /** `element`: type byte, name with NUL, value. */
  function EncField(f: Field): (b: seq<byte>)
    decreases f
  {
    [TypeOf(f.value)] + (f.name + (NUL + EncValue(f.value)))
  }

  /** `e_list`. */
  function EncBody(d: Doc): seq<byte>
    decreases d, 0
  {
    if d == [] then [] else EncField(d[0]) + EncBody(d[1..])
  }

  /** `document`: total size, elements, NUL. */
  function EncDoc(d: Doc): (b: seq<byte>)
    ensures |b| >= 5
    decreases d, 1
  {
    Le4(|EncBody(d)| + 5) + (EncBody(d) + NUL)
  }

  lemma {:induction false} EncBodyConcat(d: Doc, e: Doc)
    ensures EncBody(d + e) == EncBody(d) + EncBody(e)
    decreases d
  {
    if d == [] {
      assert d + e == e;
    } else {
      assert (d + e)[1..] == d[1..] + e;
      EncBodyConcat(d[1..], e);
    }
  }

  lemma EncBodyOne(f: Field)
    ensures EncBody([f]) == EncField(f)
  {
    assert [f][1..] == [];
  }

  // ---- Reading: sizes ----

  /** `strlen`, stopping at the end of what may be read. */
  function Strlen(s: seq<byte>): (n: nat)
    ensures n <= |s| && (forall i :: 0 <= i < n ==> s[i] != 0) && (n < |s| ==> s[n] == 0)
  {
    if s == [] || s[0] == 0 then 0 else 1 + Strlen(s[1..])
  }

  lemma {:induction false} StrlenAt(c: CString, rest: seq<byte>)
    ensures Strlen(c + (NUL + rest)) == |c|
  {
    var s := c + (NUL + rest);
    if c != [] {
      assert s[1..] == c[1..] + (NUL + rest);
      StrlenAt(c[1..], rest);
    }
  }

  /** `BSONElement::size`, the part for the value; `None` when it would read past `v` or throws. */
  function ValueSize(t: byte, v: seq<byte>): Option<int> {
    if t == 0 || t == 6 || t == 10 || t == 127 || t == 255 then Some(0)
    else if t == 8 then Some(1)
    else if t == 16 then Some(4)
    else if t == 17 || t == 9 || t == 1 || t == 18 then Some(8)
    else if t == 7 then Some(12)
    else if t == 11 then
      var n := Strlen(v);
      if n == |v| then None
      else
        var k := Strlen(v[n + 1..]);
        if k == |v[n + 1..]| then None else Some(n + 1 + k + 1)
    else if |v| < 4 || t > 18 then None
    else if t == 2 || t == 13 || t == 14 then Some(Int4(v[..4]) + 4)
    else if t == 12 then Some(Int4(v[..4]) + 4 + 12)
    else if t == 5 then Some(Int4(v[..4]) + 4 + 1)
    else Some(Int4(v[..4]))
  }

  /** `BSONElement::size` of the element at the head of `s`. */
  function ElementSize(s: seq<byte>): Option<int> {
    if s == [] then None
    else if s[0] == 0 then Some(1)
    else
      var n := Strlen(s[1..]);
      if n == |s| - 1 then None
      else
        match ValueSize(s[0], s[n + 2..])
        case None => None
        case Some(x) => Some(x + (n + 1) + 1)
  }

  lemma Le4Head(x: Int32, rest: seq<byte>)
    ensures |Le4(x) + rest| >= 4 && Int4((Le4(x) + rest)[..4]) == x && (Le4(x) + rest)[4..] == rest
  {
    Int4RoundTrip(x);
    assert (Le4(x) + rest)[..4] == Le4(x);
  }

  /** The size computed from the bytes is the number of bytes that were appended. */
  lemma ValueSizeRight(v: Value, rest: seq<byte>)
    requires |EncValue(v)| < INT_LIMIT
    ensures ValueSize(TypeOf(v), EncValue(v) + rest) == Some(|EncValue(v)|)
  {
    if v.RegEx? {
      RegExSize(v.pattern, v.options, rest);
    } else if v.Str? || v.Code? || v.Symbol? || v.DBRef? || v.BinData? || v.Object? || v.Array? || v.CodeWScope? {
      hide Strlen, EncText, EncDoc, EncBody;
      IntHead(v, rest);
    }
  }

  /** The `int` that heads a value of variable size. */
  lemma IntHead(v: Value, rest: seq<byte>)
    requires |EncValue(v)| < INT_LIMIT
    requires v.Str? || v.Code? || v.Symbol? || v.DBRef? || v.BinData? || v.Object? || v.Array? || v.CodeWScope?
    ensures var b, n := EncValue(v) + rest, |EncValue(v)|;
            |b| >= 4 && Int4(b[..4]) == if v.DBRef? then n - 16 else if v.BinData? then n - 5
                                        else if v.Object? || v.Array? || v.CodeWScope? then n else n - 4
  {
    hide Int4, Le4, EncBody, EncText, EncDoc;
    match v
    case Str(t) => TextHead(t, rest);
    case Code(t) => TextHead(t, rest);
    case Symbol(t) => TextHead(t, rest);
    case DBRef(ns, id) =>
      TextHead(ns, id + rest);
      assert EncValue(v) + rest == EncText(ns) + (id + rest);
    case BinData(subtype, data) =>
      Le4Head(|data|, [subtype] + data + rest);
      assert EncValue(v) + rest == Le4(|data|) + ([subtype] + data + rest);
    case Object(d) => DocHead(d, rest);
    case Array(d) => DocHead(d, rest);
    case CodeWScope(c, scope) =>
      var n, tail := 4 + 4 + |c| + 1 + |EncDoc(scope)|, EncText(c) + EncDoc(scope);
      TextSize(c);
      Le4Head(n, tail + rest);
      assert EncValue(v) + rest == Le4(n) + (tail + rest);
  }

  lemma TextSize(t: seq<byte>)
    ensures |EncText(t)| == |t| + 5
  {
  }

  lemma RegExSize(p: CString, o: CString, rest: seq<byte>)
    ensures ValueSize(11, EncValue(RegEx(p, o)) + rest) == Some(|EncValue(RegEx(p, o))|)
  {
    hide Strlen, Int4;
    var b := EncValue(RegEx(p, o)) + rest;
    assert b == p + (NUL + (o + (NUL + rest)));
    StrlenAt(p, o + (NUL + rest));
    assert b[|p| + 1..] == o + (NUL + rest);
    StrlenAt(o, rest);
  }

  lemma TextHead(t: seq<byte>, rest: seq<byte>)
    requires |EncText(t)| < INT_LIMIT
    ensures |EncText(t) + rest| >= 4 && Int4((EncText(t) + rest)[..4]) == |t| + 1
    ensures (EncText(t) + rest)[4..] == t + NUL + rest && |EncText(t)| == |t| + 5
  {
    Le4Head(|t| + 1, t + NUL + rest);
    assert EncText(t) + rest == Le4(|t| + 1) + (t + NUL + rest);
  }

  lemma DocHead(d: Doc, rest: seq<byte>)
    requires |EncDoc(d)| < INT_LIMIT
    ensures Int4((EncDoc(d) + rest)[..4]) == |EncDoc(d)|
    ensures (EncDoc(d) + rest)[4..|EncDoc(d)|] == EncBody(d) + NUL
  {
    Le4Head(|EncBody(d)| + 5, EncBody(d) + NUL + rest);
    assert EncDoc(d) + rest == Le4(|EncBody(d)| + 5) + (EncBody(d) + NUL + rest);
  }

  /** The parts of an element's bytes, whatever follows them. */
  lemma FieldParts(f: Field, rest: seq<byte>)
    ensures var s, n := EncField(f) + rest, |f.name|;
            && s[0] == TypeOf(f.value) != 0 && |s| > n + 1
            && Strlen(s[1..]) == n && s[1..][..n] == f.name && s[n + 2..] == EncValue(f.value) + rest
  {
    hide EncValue, Strlen;
    var s, tail := EncField(f) + rest, EncValue(f.value) + rest;
    assert s[1..] == f.name + (NUL + tail);
    StrlenAt(f.name, tail);
    assert f.name + (NUL + tail) == (f.name + NUL) + tail;
  }

  lemma OwnParts(f: Field)
    ensures var e, n := EncField(f), |f.name|;
            && |e| == n + 2 + |EncValue(f.value)| && e[0] == TypeOf(f.value) != 0
            && Strlen(e[1..]) == n && e[1..][..n] == f.name && e[n + 2..] == EncValue(f.value)
  {
    hide EncValue, Strlen;
    StrlenAt(f.name, EncValue(f.value));
  }

  /** Every element's `size()` is the number of bytes its append wrote. */
  lemma ElementSizeRight(f: Field, rest: seq<byte>)
    requires |EncField(f)| < INT_LIMIT
    ensures ElementSize(EncField(f) + rest) == Some(|EncField(f)|)
  {
    hide Strlen, ValueSize, EncValue;
    FieldParts(f, rest);
    ValueSizeRight(f.value, rest);
  }

  // ---- Reading: values, and whole documents ----

  function MapSome<S, T>(o: Option<S>, f: S -> T): Option<T> {
    match o
    case None => None
    case Some(x) => Some(f(x))
  }

  /** A string value: what lies between its length and its final NUL. */
  function TextIn(v: seq<byte>): Option<seq<byte>> {
    if |v| < 5 then None else Some(v[4..|v| - 1])
  }

  /** The value accessors, for a value occupying exactly `v`. */
  function ReadValue(t: byte, v: seq<byte>): Option<Value>
    requires ValueSize(t, v) == Some(|v|)
    decreases |v|, 1
  {
    if t == 255 then Some(MinKey)
    else if t == 1 then Some(Double(v))
    else if t == 2 then MapSome(TextIn(v), x => Str(x))
    else if t == 3 then MapSome(ReadDoc(v), x => Object(x))
    else if t == 4 then MapSome(ReadDoc(v), x => Array(x))
    else if t == 5 then (if |v| < 5 then None else Some(BinData(v[4], v[5..])))
    else if t == 6 then Some(Undefined)
    else if t == 7 then Some(Oid(v))
    else if t == 8 then Some(Bool(v[0] != 0))
    else if t == 9 then Some(Date(UInt8(v)))
    else if t == 10 then Some(Null)
    else if t == 11 then
      var n := Strlen(v);
      var k := Strlen(v[n + 1..]);
      var p: CString, o: CString := v[..n], v[n + 1..][..k];
      Some(RegEx(p, o))
    else if t == 12 then (if |v| < 17 then None else Some(DBRef(v[4..|v| - 13], v[|v| - 12..])))
    else if t == 13 then MapSome(TextIn(v), x => Code(x))
    else if t == 14 then MapSome(TextIn(v), x => Symbol(x))
    else if t == 15 then
      if |v| < 8 then None
      else
        var n := Strlen(v[8..]);
        if 8 + n + 1 > |v| then None
        else
          var c: CString := v[8..][..n];
          MapSome(ReadDoc(v[8 + n + 1..]), x => CodeWScope(c, x))
    else if t == 16 then Some(Int(Int4(v)))
    else if t == 17 then Some(Timestamp(UInt8(v)))
    else if t == 18 then Some(Long(Int8(v)))
    else if t == 127 then Some(MaxKey)
    else None
  }

  /** The field that the bytes of one element hold. */
  function ReadField(e: seq<byte>): Option<Field>
    requires e != []
    decreases |e|, 1
  {
    var k := Strlen(e[1..]);
    if k + 2 > |e| || ValueSize(e[0], e[k + 2..]) != Some(|e| - k - 2) then None
    else
      var name: CString := e[1..][..k];
      MapSome(ReadValue(e[0], e[k + 2..]), v => Field(name, v))
  }

  /** `while (more()) next()`, from the first element to the final NUL, collecting the fields. */
  function ReadBody(s: seq<byte>): Option<Doc>
    decreases |s|, 2
  {
    if |s| <= 1 then Some([])
    else
      match ElementSize(s)
      case None => None
      case Some(n) =>
        if !(0 < n <= |s|) then None
        else
          match ReadField(s[..n])
          case None => None
          case Some(f) => MapSome(ReadBody(s[n..]), d => [f] + d)
  }

  function ReadDoc(b: seq<byte>): Option<Doc>
    decreases |b|, 0
  {
    if |b| < 4 then None
    else
      var sz := Int4(b[..4]);
      if sz < 5 || sz > |b| then None else ReadBody(b[4..sz])
  }

  lemma ReadText(t: seq<byte>)
    ensures TextIn(EncText(t)) == Some(t)
  {
    assert EncText(t)[4..|t| + 4] == t;
  }

  /** Reading a value's bytes gives the value. */
  lemma {:induction false} ReadValueRight(v: Value)
    requires |EncValue(v)| < INT_LIMIT
    ensures ValueSize(TypeOf(v), EncValue(v)) == Some(|EncValue(v)|)
    ensures ReadValue(TypeOf(v), EncValue(v)) == Some(v)
    decreases v, 0
  {
    ValueSizeRight(v, []);
    assert EncValue(v) + [] == EncValue(v);
    if v.Object? || v.Array? || v.CodeWScope? {
      var d := if v.Object? then v.doc else if v.Array? then v.items else v.scope;
      assert |EncDoc(d)| <= |EncValue(v)|;
      hide *;
      ReadDocRight(d, []);
      assert EncDoc(d) + [] == EncDoc(d);
      ReadNested(v, d);
    } else if v.Str? || v.Code? || v.Symbol? || v.BinData? || v.RegEx? || v.DBRef? {
      ReadStrings(v);
    } else {
      ReadPlain(v);
    }
  }

  lemma ReadNested(v: Value, d: Doc)
    requires v == Object(d) || v == Array(d) || (v.CodeWScope? && v.scope == d)
    requires ValueSize(TypeOf(v), EncValue(v)) == Some(|EncValue(v)|) && ReadDoc(EncDoc(d)) == Some(d)
    ensures ReadValue(TypeOf(v), EncValue(v)) == Some(v)
  {
    hide ValueSize, EncDoc, ReadDoc, Le4, Strlen;
    if v.CodeWScope? {
      CodeParts(v.source, d);
    }
  }

  lemma ReadStrings(v: Value)
    requires v.Str? || v.Code? || v.Symbol? || v.BinData? || v.RegEx? || v.DBRef?
    requires ValueSize(TypeOf(v), EncValue(v)) == Some(|EncValue(v)|)
    ensures ReadValue(TypeOf(v), EncValue(v)) == Some(v)
  {
    hide Le4, Strlen, ValueSize, TextIn, EncText;
    match v
    case Str(t) => ReadText(t);
    case Code(t) => ReadText(t);
    case Symbol(t) => ReadText(t);
    case BinData(subtype, data) => BinParts(subtype, data);
    case RegEx(p, o) => RegExParts(p, o);
    case DBRef(ns, id) => DBRefParts(ns, id);
  }

  lemma ReadPlain(v: Value)
    requires v.MinKey? || v.Double? || v.Undefined? || v.Oid? || v.Bool? || v.Date? || v.Null? || v.Int?
             || v.Timestamp? || v.Long? || v.MaxKey?
    requires ValueSize(TypeOf(v), EncValue(v)) == Some(|EncValue(v)|)
    ensures ReadValue(TypeOf(v), EncValue(v)) == Some(v)
  {
    hide Le4, Le8, Int4, UInt8, Strlen, ValueSize;
    match v
    case Date(m) => UInt8RoundTrip(m);
    case Timestamp(m) => UInt8RoundTrip(m);
    case Long(l) => UInt8RoundTrip(l);
    case Int(i) => Int4RoundTrip(i);
    case _ =>
  }

  lemma BinParts(subtype: byte, data: seq<byte>)
    ensures var b := EncValue(BinData(subtype, data)); |b| >= 5 && b[4] == subtype && b[5..] == data
  {
  }

  lemma RegExParts(p: CString, o: CString)
    ensures var b := EncValue(RegEx(p, o));
            && Strlen(b) == |p| && b[..|p|] == p && |b| > |p|
            && Strlen(b[|p| + 1..]) == |o| && b[|p| + 1..][..|o|] == o
  {
    var b := EncValue(RegEx(p, o));
    hide Strlen;
    StrlenAt(p, o + NUL);
    assert o + NUL == o + (NUL + []) == b[|p| + 1..];
    StrlenAt(o, []);
  }

  lemma DBRefParts(ns: seq<byte>, id: OidBytes)
    ensures var b := EncValue(DBRef(ns, id)); |b| == |ns| + 17 && b[4..|b| - 13] == ns && b[|b| - 12..] == id
  {
  }

  lemma CodeParts(c: CString, scope: Doc)
    ensures var b := EncValue(CodeWScope(c, scope));
            && |b| >= 9 + |c| && Strlen(b[8..]) == |c| && b[8..][..|c|] == c && b[8 + |c| + 1..] == EncDoc(scope)
  {
    hide EncDoc, Strlen, Le4;
    var b, e := EncValue(CodeWScope(c, scope)), EncDoc(scope);
    assert b[8..] == c + (NUL + e);
    StrlenAt(c, e);
    assert b[8..][|c| + 1..] == e;
  }

  /** Reading an element list gives its fields. */
  lemma {:induction false} ReadBodyRight(d: Doc)
    requires |EncBody(d)| < INT_LIMIT
    ensures ReadBody(EncBody(d) + NUL) == Some(d)
    decreases d, 0
  {
    if d != [] {
      var f, rest, s := d[0], EncBody(d[1..]) + NUL, EncBody(d) + NUL;
      assert s == EncField(f) + rest;
      FieldParts(f, rest);
      assert s[..|EncField(f)|] == EncField(f) && s[|EncField(f)|..] == rest;
      hide Strlen, ElementSize, EncField, EncBody, ReadField, EncValue;
      OwnParts(f);
      ElementSizeRight(f, rest);
      ReadValueRight(f.value);
      ReadFieldRight(f);
      ReadBodyRight(d[1..]);
      assert d == [f] + d[1..];
    }
  }

  lemma ReadFieldRight(f: Field)
    requires ValueSize(TypeOf(f.value), EncValue(f.value)) == Some(|EncValue(f.value)|)
    requires ReadValue(TypeOf(f.value), EncValue(f.value)) == Some(f.value)
    ensures EncField(f) != [] && ReadField(EncField(f)) == Some(f)
  {
    hide EncField, EncValue, ReadValue, ValueSize, Strlen;
    OwnParts(f);
  }

  /** The round trip: iterating over a document's bytes gives the document, whatever lies behind them. */
  lemma {:induction false} ReadDocRight(d: Doc, rest: seq<byte>)
    requires |EncDoc(d)| < INT_LIMIT
    ensures ReadDoc(EncDoc(d) + rest) == Some(d)
    decreases d, 1
  {
    hide Int4, ReadBody;
    DocHead(d, rest);
    ReadBodyRight(d);
  }
}
