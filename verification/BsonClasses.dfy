/**
 What `woCompare` means for a caller: the order of the type classes as a plain list, and inside each
 class the order of the values.
 */
module BsonClasses {
  import opened Bytes
  import opened BsonTypes
  import opened BsonEncoding
  import opened BsonOrder
  import opened BsonCompare

  // ---- The classes, first to last ----

  datatype Class =
    | Least | Undefineds | Nulls | Numbers | Strings | Objects | Arrays | Binaries
    | Ids | Bools | Dates | RegExes | Refs | Codes | ScopedCodes | Greatest

  function ClassOf(v: Value): Class {
    match v
    case MinKey => Least
    case Undefined => Undefineds
    case Null => Nulls
    case Double(_) | Int(_) | Long(_) => Numbers
    case Str(_) | Symbol(_) => Strings
    case Object(_) => Objects
    case Array(_) => Arrays
    case BinData(_, _) => Binaries
    case Oid(_) => Ids
    case Bool(_) => Bools
    case Date(_) | Timestamp(_) => Dates
    case RegEx(_, _) => RegExes
    case DBRef(_, _) => Refs
    case Code(_) => Codes
    case CodeWScope(_, _) => ScopedCodes
    case MaxKey => Greatest
  }

  const IN_ORDER: seq<Class> := [
    Least, Undefineds, Nulls, Numbers, Strings, Objects, Arrays, Binaries,
    Ids, Bools, Dates, RegExes, Refs, Codes, ScopedCodes, Greatest]

  predicate Earlier(c: Class, d: Class) {
    exists i, j :: 0 <= i < j < |IN_ORDER| && IN_ORDER[i] == c && IN_ORDER[j] == d
  }

  /** Where the class stands in the list. */
  function Place(c: Class): (i: nat)
    ensures i < |IN_ORDER| && IN_ORDER[i] == c && forall j :: 0 <= j < |IN_ORDER| && IN_ORDER[j] == c ==> j == i
  {
    match c
    case Least => 0
    case Undefineds => 1
    case Nulls => 2
    case Numbers => 3
    case Strings => 4
    case Objects => 5
    case Arrays => 6
    case Binaries => 7
    case Ids => 8
    case Bools => 9
    case Dates => 10
    case RegExes => 11
    case Refs => 12
    case Codes => 13
    case ScopedCodes => 14
    case Greatest => 15
  }

  lemma ByPlace(c: Class, d: Class)
    ensures Earlier(c, d) <==> Place(c) < Place(d)
  {
    if Place(c) < Place(d) {
      assert IN_ORDER[Place(c)] == c && IN_ORDER[Place(d)] == d;
    }
  }

  lemma CanonicalByPlace(v: Value, w: Value)
    ensures CanonicalType(v) < CanonicalType(w) <==> Place(ClassOf(v)) < Place(ClassOf(w))
  {
  }

  /**
   Values of different classes are ordered by their classes, whatever the names of their fields,
   and whatever follows.
   */
  lemma ClassesInOrder(l: Field, r: Field, x: Doc, y: Doc, names: bool)
    requires Earlier(ClassOf(l.value), ClassOf(r.value))
    ensures CompareDocs([l] + x, [r] + y, [], names) < 0 < CompareDocs([r] + y, [l] + x, [], names)
  {
    ByPlace(ClassOf(l.value), ClassOf(r.value));
    CanonicalByPlace(l.value, r.value);
    assert ([l] + x)[0] == l && ([r] + y)[0] == r;
  }

  /** The classes are all there are: two values of which neither comes earlier are of one class. */
  lemma OneClass(v: Value, w: Value)
    ensures Earlier(ClassOf(v), ClassOf(w)) || Earlier(ClassOf(w), ClassOf(v)) || ClassOf(v) == ClassOf(w)
    ensures ClassOf(v) == ClassOf(w) <==> CanonicalType(v) == CanonicalType(w)
  {
    ByPlace(ClassOf(v), ClassOf(w));
    ByPlace(ClassOf(w), ClassOf(v));
    CanonicalByPlace(v, w);
    CanonicalByPlace(w, v);
  }

  // ---- Byte strings ----

  /** Before at the first difference, or by being cut off there. */
  ghost predicate Precedes(a: seq<byte>, b: seq<byte>) {
    exists k: nat :: DiffersAt(a, b, k)
  }

  predicate DiffersAt(a: seq<byte>, b: seq<byte>, k: nat) {
    k <= |a| && k < |b| && a[..k] == b[..k] && (k < |a| ==> a[k] < b[k])
  }

  /** `x` tells how `a` and `b` are ordered. */
  ghost predicate Orders(x: int, a: seq<byte>, b: seq<byte>) {
    (x == 0 <==> a == b) && (x < 0 <==> Precedes(a, b)) && (x > 0 <==> Precedes(b, a))
  }

  /** What a C string function sees of some bytes. */
  function Shown(s: seq<byte>): seq<byte> {
    s[..Strlen(s)]
  }

  lemma PrecedesNext(a: seq<byte>, b: seq<byte>)
    requires a != [] && b != [] && a[0] == b[0]
    ensures Precedes(a, b) <==> Precedes(a[1..], b[1..])
    ensures a == b <==> a[1..] == b[1..]
  {
    assert a == [a[0]] + a[1..] && b == [b[0]] + b[1..];
    forall k: nat
      ensures DiffersAt(a, b, k + 1) <==> DiffersAt(a[1..], b[1..], k)
    {
      if k < |a| && k < |b| {
        assert a[..k + 1] == [a[0]] + a[1..][..k] && b[..k + 1] == [b[0]] + b[1..][..k];
        assert a[..k + 1][1..] == a[1..][..k] && b[..k + 1][1..] == b[1..][..k];
      }
    }
    if Precedes(a, b) {
      var k: nat :| DiffersAt(a, b, k);
      assert k > 0;
      assert DiffersAt(a[1..], b[1..], k - 1);
    }
    if Precedes(a[1..], b[1..]) {
      var k: nat :| DiffersAt(a[1..], b[1..], k);
      assert DiffersAt(a, b, k + 1);
    }
  }

  lemma FirstDiffers(a: seq<byte>, b: seq<byte>)
    requires a == [] || b == [] || a[0] != b[0]
    ensures Precedes(a, b) <==> b != [] && (a == [] || a[0] < b[0])
  {
    if b != [] && (a == [] || a[0] < b[0]) {
      assert DiffersAt(a, b, 0);
    }
    if Precedes(a, b) {
      var k: nat :| DiffersAt(a, b, k);
      HeadsBefore(a, b, k);
    }
  }

  lemma HeadsBefore(a: seq<byte>, b: seq<byte>, k: nat)
    ensures DiffersAt(a, b, k) && k > 0 ==> a[0] == b[0]
  {
    if DiffersAt(a, b, k) && k > 0 {
      assert a[0] == a[..k][0] && b[0] == b[..k][0];
    }
  }

  lemma {:induction false} MemCmpOrders(a: seq<byte>, b: seq<byte>)
    requires |a| == |b|
    ensures Orders(MemCmp(a, b), a, b)
  {
    hide Precedes;
    if a != [] && a[0] == b[0] {
      MemCmpOrders(a[1..], b[1..]);
      PrecedesNext(a, b);
      PrecedesNext(b, a);
    } else {
      FirstDiffers(a, b);
      FirstDiffers(b, a);
    }
  }

  lemma {:induction false} StrCmpOrders(a: seq<byte>, b: seq<byte>)
    ensures Orders(StrCmp(a, b), Shown(a), Shown(b))
  {
    hide Precedes;
    if Shown(a) != [] && Shown(b) != [] && a[0] == b[0] {
      StrCmpOrders(a[1..], b[1..]);
      assert Shown(a)[1..] == Shown(a[1..]) && Shown(b)[1..] == Shown(b[1..]);
      PrecedesNext(Shown(a), Shown(b));
      PrecedesNext(Shown(b), Shown(a));
    } else {
      FirstDiffers(Shown(a), Shown(b));
      FirstDiffers(Shown(b), Shown(a));
    }
  }

  // ---- Values of one class ----

  predicate Finite(v: Value)
    requires IsNumber(v)
  {
    v.Double? ==> Exponent(v.bits) != 2047
  }

  function AsDouble(v: Value): real
    requires IsNumber(v) && Finite(v)
  {
    match v
    case Int(i) => i as real
    case Long(l) => LongAsDouble(l) as real
    case Double(b) => DoubleToken(b).x
  }

  /** Comparing two one-field documents of one name. */
  function CompareSingle(name: CString, v: Value, w: Value): int {
    CompareDocs([Field(name, v)], [Field(name, w)], [], true)
  }

  lemma {:induction false} SameText(a: seq<byte>)
    ensures StrCmp(a, a) == 0
  {
    if a != [] && a[0] != 0 {
      SameText(a[1..]);
    }
  }

  lemma SingleByValue(name: CString, v: Value, w: Value)
    requires ClassOf(v) == ClassOf(w)
    ensures CanonicalType(v) == CanonicalType(w) && CompareSingle(name, v, w) == CompareValues(v, w)
  {
    hide CompareValues;
    CanonicalByPlace(v, w);
    CanonicalByPlace(w, v);
    SameText(name);
    OneFieldEach(Field(name, v), Field(name, w));
  }

  /** Infinities and NaNs come before all numbers, and are alike. */
  lemma NumbersCompared(name: CString, v: Value, w: Value)
    requires ClassOf(v) == ClassOf(w) == Numbers
    ensures var x := CompareSingle(name, v, w);
            if v.Long? && w.Long? then (x < 0 <==> v.l < w.l) && (x == 0 <==> v.l == w.l)
            else if Finite(v) && Finite(w) then
              (x < 0 <==> AsDouble(v) < AsDouble(w)) && (x == 0 <==> AsDouble(v) == AsDouble(w))
            else if Finite(w) then x < 0
            else if Finite(v) then x > 0
            else x == 0
  {
    hide DoubleToken, LongAsDouble;
    SingleByValue(name, v, w);
    DoubleKind(v);
    DoubleKind(w);
  }

  lemma DoubleKind(v: Value)
    ensures v.Double? ==>
        if Exponent(v.bits) == 2047 then DoubleToken(v.bits) == NonFinite else DoubleToken(v.bits).Num?
  {
  }

  /** Strings, symbols and code compare up to their first NUL, a string and a symbol alike. */
  lemma TextsCompared(name: CString, v: Value, w: Value)
    requires ClassOf(v) == ClassOf(w) && (ClassOf(v) == Strings || ClassOf(v) == Codes)
    ensures Orders(CompareSingle(name, v, w), Shown(StringOf(v)), Shown(StringOf(w)))
  {
    SingleByValue(name, v, w);
    StrCmpOrders(StringOf(v), StringOf(w));
  }

  lemma ConstantsCompared(name: CString, v: Value, w: Value)
    requires ClassOf(v) == ClassOf(w) && ClassOf(v) in {Least, Undefineds, Nulls, Greatest}
    ensures CompareSingle(name, v, w) == 0
  {
    SingleByValue(name, v, w);
  }

  lemma BoolsCompared(name: CString, b: bool, c: bool)
    ensures CompareSingle(name, Bool(b), Bool(c)) < 0 <==> !b && c
    ensures CompareSingle(name, Bool(b), Bool(c)) == 0 <==> b == c
  {
    SingleByValue(name, Bool(b), Bool(c));
  }

  /** Dates and timestamps are compared as unsigned numbers, one with the other too. */
  lemma DatesCompared(name: CString, v: Value, w: Value)
    requires ClassOf(v) == ClassOf(w) == Dates
    ensures CompareSingle(name, v, w) < 0 <==> Moment(v) < Moment(w)
    ensures CompareSingle(name, v, w) == 0 <==> Moment(v) == Moment(w)
  {
    SingleByValue(name, v, w);
  }

  lemma IdsCompared(name: CString, x: OidBytes, y: OidBytes)
    ensures Orders(CompareSingle(name, Oid(x), Oid(y)), x, y)
  {
    SingleByValue(name, Oid(x), Oid(y));
    MemCmpOrders(x, y);
  }

  /** The shorter first; for one length the subtype, then the bytes. */
  lemma BinariesCompared(name: CString, s: byte, a: seq<byte>, t: byte, b: seq<byte>)
    ensures var x := CompareSingle(name, BinData(s, a), BinData(t, b));
            if |a| == |b| then Orders(x, [s] + a, [t] + b) else x < 0 <==> |a| < |b|
  {
    SingleByValue(name, BinData(s, a), BinData(t, b));
    if |a| == |b| {
      MemCmpOrders([s] + a, [t] + b);
    }
  }

  /** The shorter namespace first; for one length the namespaces, then the ids. */
  lemma RefsCompared(name: CString, a: seq<byte>, x: OidBytes, b: seq<byte>, y: OidBytes)
    ensures var c := CompareSingle(name, DBRef(a, x), DBRef(b, y));
            if |a| == |b| then Orders(c, a + NUL + x, b + NUL + y) else c < 0 <==> |a| < |b|
  {
    SingleByValue(name, DBRef(a, x), DBRef(b, y));
    RefParts(a, x);
    RefParts(b, y);
    hide EncValue, Precedes, CompareSingle;
    var v, w := EncValue(DBRef(a, x)), EncValue(DBRef(b, y));
    if |a| == |b| {
      MemCmpOrders(v, w);
      SameHead(Le4(|a| + 1), a + NUL + x, b + NUL + y);
      SameHead(Le4(|a| + 1), b + NUL + y, a + NUL + x);
    }
  }

  lemma RefParts(a: seq<byte>, x: OidBytes)
    ensures EncValue(DBRef(a, x)) == Le4(|a| + 1) + (a + NUL + x)
  {
    hide Le4;
    assert Le4(|a| + 1) + (a + NUL) + x == Le4(|a| + 1) + (a + NUL + x);
  }

  lemma {:induction false} SameHead(h: seq<byte>, a: seq<byte>, b: seq<byte>)
    ensures Precedes(h + a, h + b) <==> Precedes(a, b)
    ensures h + a == h + b <==> a == b
  {
    hide Precedes;
    if h == [] {
      assert h + a == a && h + b == b;
    } else {
      assert (h + a)[1..] == h[1..] + a && (h + b)[1..] == h[1..] + b;
      PrecedesNext(h + a, h + b);
      SameHead(h[1..], a, b);
    }
  }

  /** The pattern, and for one pattern the options. */
  lemma RegExesCompared(name: CString, p: CString, o: CString, q: CString, n: CString)
    ensures var x := CompareSingle(name, RegEx(p, o), RegEx(q, n));
            if p == q then Orders(x, o, n) else Orders(x, p, q)
  {
    SingleByValue(name, RegEx(p, o), RegEx(q, n));
    StrCmpOrders(p, q);
    StrCmpOrders(o, n);
    WholeShown(p);
    WholeShown(q);
    WholeShown(o);
    WholeShown(n);
  }

  lemma {:induction false} WholeShown(c: CString)
    ensures Shown(c) == c
  {
    if c != [] {
      WholeShown(c[1..]);
      assert c == [c[0]] + c[1..];
    }
  }

  /** The code, and for one code the bytes of the scope up to the first NUL: mostly those of its length. */
  lemma ScopedCodesCompared(name: CString, c: CString, d: Doc, e: CString, f: Doc)
    ensures var x := CompareSingle(name, CodeWScope(c, d), CodeWScope(e, f));
            if c == e then Orders(x, Shown(EncDoc(d)), Shown(EncDoc(f))) else Orders(x, c, e)
  {
    hide EncDoc;
    SingleByValue(name, CodeWScope(c, d), CodeWScope(e, f));
    StrCmpOrders(c, e);
    StrCmpOrders(EncDoc(d), EncDoc(f));
    WholeShown(c);
    WholeShown(e);
  }

  /** Nested documents and arrays compare as documents do. */
  lemma NestedCompared(name: CString, d: Doc, e: Doc)
    ensures CompareSingle(name, Object(d), Object(e)) == CompareDocs(d, e, [], true)
    ensures CompareSingle(name, Array(d), Array(e)) == CompareDocs(d, e, [], true)
  {
    SingleByValue(name, Object(d), Object(e));
    SingleByValue(name, Array(d), Array(e));
  }

  // ---- Documents ----

  /** Values of one class under different names are ordered by the names, if names count. */
  lemma NamesBeforeValues(l: Field, r: Field, x: Doc, y: Doc)
    requires ClassOf(l.value) == ClassOf(r.value) && l.name != r.name
    ensures Orders(CompareDocs([l] + x, [r] + y, [], true), l.name, r.name)
  {
    hide CompareValues, Precedes;
    OneClass(l.value, r.value);
    StrCmpOrders(l.name, r.name);
    WholeShown(l.name);
    WholeShown(r.name);
    assert ([l] + x)[0] == l && ([r] + y)[0] == r;
  }

  /** The rest counts only behind equal fields, and a document that ends comes first. */
  lemma RestAfterFirst(f: Field, l: Field, x: Doc, y: Doc)
    ensures CompareElements(l, f, true) == 0 ==> CompareDocs([l] + x, [f] + y, [], true) == CompareDocs(x, y, [], true)
    ensures CompareElements(l, f, true) != 0 ==>
        CompareDocs([l] + x, [f] + y, [], true) == CompareDocs([l], [f], [], true)
    ensures CompareDocs([], [f] + y, [], true) < 0 < CompareDocs([f] + y, [], [], true)
  {
    hide CompareElements;
    assert ([l] + x)[0] == l && ([f] + y)[0] == f && ([l] + x)[1..] == x && ([f] + y)[1..] == y;
  }
}
