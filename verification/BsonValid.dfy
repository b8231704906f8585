/** `BSONObj::valid`, and the iterator it walks with. */
module BsonValid {
  import opened Bytes
  import opened BsonTypes
  import opened BsonEncoding

  /** `BSONObjMaxInternalSize`. */
  const MAX_OBJECT: nat := 16 * 1024 * 1024 + 16 * 1024

  /** `BSONElement::size(maxLen)`: as `size()`, except for a regular expression whose NUL is missing. */
  function CheckedSize(s: seq<byte>): Option<int> {
    if s == [] then None
    else if s[0] == 0 then Some(1)
    else
      var n := Strlen(s[1..]);
      if n == |s| - 1 then None
      else
        var v := s[n + 2..];
        if s[0] == 11 then Some(RegExSpan(v) + (n + 1) + 1) else ElementSize(s)
  }

  /** `strnlen` gives -1 where there is no NUL, and the two results are used as they come. */
  function RegExSpan(v: seq<byte>): int {
    var n := Strlen(v);
    var len1 := if n == |v| then -1 else n;
    var k := Strlen(v[len1 + 1..]);
    var len2 := if k == |v| - len1 - 1 then -1 else k;
    len1 + 1 + len2 + 1
  }

  /** `BSONElement::validate`, for a value occupying exactly `v`. */
  predicate Validated(t: byte, v: seq<byte>) {
    if t == 12 || t == 13 || t == 14 || t == 2 then
      |v| >= 4 && 0 < Int4(v[..4]) < MAX_OBJECT && 4 + Int4(v[..4]) <= |v| && v[4 + Int4(v[..4]) - 1] == 0
    else if t == 15 then
      && |v| >= 8
      && Int4(v[..4]) == |v|
      && var str := Int4(v[4..8]);
      && 0 < str && |v| >= str + 12
      && Strlen(v[8..8 + str]) == str - 1
      && |v| == 4 + 4 + str + Int4(v[8 + str..12 + str])
    else
      true
  }

  /** The loop of `valid`, from the element at hand to the final byte. */
  predicate ValidBody(s: seq<byte>)
    decreases |s|, 4
  {
    if |s| == 0 then false
    else if s[0] == 0 then |s| == 1
    else
      match CheckedSize(s)
      case None => false
      case Some(n) =>
        0 < n <= |s| && ValidElement(s[..n]) && ValidBody(s[n..])
  }

  predicate ValidElement(e: seq<byte>)
    requires e != []
    decreases |e|, 3
  {
    var k := Strlen(e[1..]);
    k + 2 <= |e| && ValidValue(e[0], e[k + 2..])
  }

  predicate ValidValue(t: byte, v: seq<byte>)
    decreases |v|, 2
  {
    && Validated(t, v)
    && (t == 3 || t == 4 ==> ValidDoc(v))
    && (t == 15 ==> ValidDoc(v[8 + Int4(v[4..8])..]))
  }

  /** `BSONObj(data).valid()`; the constructor refuses a size that is not positive or too large. */
  predicate ValidDoc(b: seq<byte>)
    decreases |b|, 1
  {
    |b| >= 4 && 5 <= Int4(b[..4]) <= |b| && Int4(b[..4]) <= MAX_OBJECT && ValidBody(b[4..Int4(b[..4])])
  }

  lemma CheckedSizeRight(f: Field, rest: seq<byte>)
    requires |EncField(f)| < INT_LIMIT
    ensures CheckedSize(EncField(f) + rest) == Some(|EncField(f)|)
  {
    hide ElementSize, EncField, EncValue, Strlen, RegExSpan;
    ElementSizeRight(f, rest);
    FieldParts(f, rest);
    if f.value.RegEx? {
      RegExSpanRight(f.value.pattern, f.value.options, rest);
      OwnParts(f);
    }
  }

  lemma RegExSpanRight(p: CString, o: CString, rest: seq<byte>)
    ensures RegExSpan(EncValue(RegEx(p, o)) + rest) == |EncValue(RegEx(p, o))|
  {
    hide Strlen;
    var b := EncValue(RegEx(p, o)) + rest;
    assert b == p + (NUL + (o + (NUL + rest)));
    StrlenAt(p, o + (NUL + rest));
    assert b[|p| + 1..] == o + (NUL + rest);
    StrlenAt(o, rest);
  }

  lemma {:induction false} ValidValueRight(v: Value)
    requires |EncValue(v)| < MAX_OBJECT
    ensures ValidValue(TypeOf(v), EncValue(v))
    decreases v, 0
  {
    assert EncValue(v) + [] == EncValue(v);
    if v.Object? || v.Array? {
      var d := if v.Object? then v.doc else v.items;
      ValidDocRight(d);
    } else if v.CodeWScope? {
      var n := |v.source| + 1;
      assert |EncDoc(v.scope)| < |EncValue(v)|;
      ValidDocRight(v.scope);
      CodeValidated(v.source, v.scope);
    } else if v.Str? || v.Code? || v.Symbol? || v.DBRef? {
      TextValidated(v);
    }
  }

  lemma TextValidated(v: Value)
    requires v.Str? || v.Code? || v.Symbol? || v.DBRef?
    requires |EncValue(v)| < MAX_OBJECT
    ensures Validated(TypeOf(v), EncValue(v))
  {
    hide Int4, Le4;
    var t := if v.Str? then v.text else if v.Code? then v.code else if v.Symbol? then v.symbol else v.ns;
    var rest := if v.DBRef? then v.ref else [];
    assert EncValue(v) == EncText(t) + rest;
    TextHead(t, rest);
  }

  lemma CodeValidated(c: CString, scope: Doc)
    requires |EncValue(CodeWScope(c, scope))| < INT_LIMIT
    ensures var v := EncValue(CodeWScope(c, scope));
            Validated(15, v) && v[8 + Int4(v[4..8])..] == EncDoc(scope)
  {
    hide Int4, Le4, EncDoc, Strlen, EncValue, EncText;
    var v, e := EncValue(CodeWScope(c, scope)), EncDoc(scope);
    CodeSplit(c, scope);
    TextHead(c, e);
    Le4Head(|v|, EncText(c) + e);
    assert v[4..8] == (EncText(c) + e)[..4];
    assert v[8..] == c + NUL + e;
    assert v[8..8 + |c| + 1] == c + (NUL + []);
    StrlenAt(c, []);
    assert v[8 + |c| + 1..] == e;
    DocHead(scope, []);
    assert e + [] == e;
    assert v[8 + |c| + 1..12 + |c| + 1] == e[..4];
  }

  lemma CodeSplit(c: CString, scope: Doc)
    ensures var v := EncValue(CodeWScope(c, scope));
            |v| == 9 + |c| + |EncDoc(scope)| && v == Le4(|v|) + (EncText(c) + EncDoc(scope))
  {
  }

  lemma {:induction false} ValidBodyRight(d: Doc)
    requires |EncBody(d)| < MAX_OBJECT
    ensures ValidBody(EncBody(d) + NUL)
    decreases d, 0
  {
    if d != [] {
      var f, rest, s := d[0], EncBody(d[1..]) + NUL, EncBody(d) + NUL;
      assert s == EncField(f) + rest;
      assert s[..|EncField(f)|] == EncField(f) && s[|EncField(f)|..] == rest;
      FieldParts(f, rest);
      hide Strlen, CheckedSize, ValidElement, EncField, EncValue, EncBody;
      OwnParts(f);
      CheckedSizeRight(f, rest);
      ValidValueRight(f.value);
      ValidElementRight(f);
      ValidBodyRight(d[1..]);
    }
  }

  lemma ValidElementRight(f: Field)
    requires ValidValue(TypeOf(f.value), EncValue(f.value))
    ensures EncField(f) != [] && ValidElement(EncField(f))
  {
    hide EncField, EncValue, ValidValue, Strlen;
    OwnParts(f);
  }

  /** Every document that the `BSONObj` constructor accepts for its size is valid, and no other. */
  lemma {:induction false} ValidDocRight(d: Doc)
    requires |EncDoc(d)| < INT_LIMIT
    ensures ValidDoc(EncDoc(d)) <==> |EncDoc(d)| <= MAX_OBJECT
    decreases d, 1
  {
    hide Int4, ValidBody;
    DocHead(d, []);
    assert EncDoc(d) + [] == EncDoc(d);
    if |EncDoc(d)| <= MAX_OBJECT {
      ValidBodyRight(d);
    }
  }
}
