/** `woCompare`, the well-ordered comparison of documents, refined to lexicographic order on tokens. */
module BsonCompare {
  import opened Bytes
  import opened BsonTypes
  import opened BsonEncoding
  import opened BsonOrder

  // ---- As the source computes it ----

  function CanonicalType(v: Value): int {
    match v
    case MinKey => -1
    case MaxKey => 127
    case Undefined => 0
    case Null => 5
    case Double(_) | Int(_) | Long(_) => 10
    case Str(_) | Symbol(_) => 15
    case Object(_) => 20
    case Array(_) => 25
    case BinData(_, _) => 30
    case Oid(_) => 35
    case Bool(_) => 40
    case Date(_) | Timestamp(_) => 45
    case RegEx(_, _) => 50
    case DBRef(_, _) => 55
    case Code(_) => 60
    case CodeWScope(_, _) => 65
  }

  predicate IsNumber(v: Value) {
    v.Double? || v.Int? || v.Long?
  }

  /** `number()`. */
  function Number(v: Value): Token {
    match v
    case Double(b) => DoubleToken(b)
    case Int(i) => Num(i as real)
    case Long(l) => Num(LongAsDouble(l) as real)
    case _ => Num(0.0)
  }

  /** `number() < 0`: also true of minus infinity, of no NaN. */
  predicate Negative(v: Value) {
    if v.Double? && Exponent(v.bits) == 2047 then v.bits[7] >= 128 && Mantissa(v.bits) == 0
    else Number(v).Num? && Number(v).x < 0.0
  }

  function CompareNumbers(l: Token, r: Token): int {
    if !l.Num? then (if !r.Num? then 0 else -1)
    else if !r.Num? then 1
    else if l.x - r.x < 0.0 then -1
    else if l.x - r.x == 0.0 then 0
    else 1
  }

  function StringOf(v: Value): seq<byte>
    requires v.Str? || v.Symbol? || v.Code?
  {
    match v
    case Str(t) => t
    case Symbol(t) => t
    case Code(t) => t
  }

  function Moment(v: Value): UInt64
    requires v.Date? || v.Timestamp?
  {
    if v.Date? then v.millis else v.stamp
  }

  /** `compareElementValues`. */
  function CompareValues(l: Value, r: Value): int
    requires CanonicalType(l) == CanonicalType(r)
    decreases l, 0
  {
    match l
    case MinKey | MaxKey | Undefined | Null => Sign(CanonicalType(l) - CanonicalType(r))
    case Bool(b) => (if b then 1 else 0) - if r.b then 1 else 0
    case Date(_) | Timestamp(_) =>
      if Moment(l) < Moment(r) then -1 else if Moment(l) == Moment(r) then 0 else 1
    case Long(n) =>
      if r.Long? then (if n < r.l then -1 else if n == r.l then 0 else 1)
      else CompareNumbers(Number(l), Number(r))
    case Int(_) | Double(_) => CompareNumbers(Number(l), Number(r))
    case Oid(id) => MemCmp(id, r.id)
    case Str(_) | Symbol(_) | Code(_) => StrCmp(StringOf(l), StringOf(r))
    case Object(d) => CompareDocs(d, r.doc, [], true)
    case Array(d) => CompareDocs(d, r.items, [], true)
    case DBRef(_, _) =>
      var x, y := EncValue(l), EncValue(r);
      if |x| != |y| then |x| - |y| else MemCmp(x, y)
    case BinData(s, d) =>
      if |d| != |r.data| then |d| - |r.data| else MemCmp([s] + d, [r.subtype] + r.data)
    case RegEx(p, o) =>
      if StrCmp(p, r.pattern) != 0 then StrCmp(p, r.pattern) else StrCmp(o, r.options)
    case CodeWScope(c, scope) =>
      if StrCmp(c, r.source) != 0 then StrCmp(c, r.source) else StrCmp(EncDoc(scope), EncDoc(r.scope))
  }

  /** The element's `woCompare`: class, then name if it is considered, then value. */
  function CompareElements(l: Field, r: Field, names: bool): int
    decreases l, 0
  {
    var x := CanonicalType(l.value) - CanonicalType(r.value);
    if x != 0 && (!IsNumber(l.value) || !IsNumber(r.value)) then x
    else if names && StrCmp(l.name, r.name) != 0 then StrCmp(l.name, r.name)
    else CompareValues(l.value, r.value)
  }

  /** The document's `woCompare`; `down` says which positions are descending, those beyond it are not. */
  function CompareDocs(l: Doc, r: Doc, down: seq<bool>, names: bool): int
    decreases l, 0
  {
    if l == [] then (if r == [] then 0 else -1)
    else if r == [] then 1
    else
      var x := CompareElements(l[0], r[0], names);
      var y := if down != [] && down[0] then -x else x;
      if y != 0 then y else CompareDocs(l[1..], r[1..], if down == [] then [] else down[1..], names)
  }

  // ---- The independent definition: tokens in lexicographic order ----

  function ValueTokens(v: Value): seq<Token>
    decreases v, 0
  {
    match v
    case MinKey | MaxKey | Undefined | Null => []
    case Double(b) => [DoubleToken(b)]
    case Int(i) => [Num(i as real)]
    case Long(l) => [Num(l as real)]
    case Bool(b) => [Num(if b then 1.0 else 0.0)]
    case Date(_) | Timestamp(_) => [Num(Moment(v) as real)]
    case Oid(id) => ByteTokens(id)
    case Str(_) | Symbol(_) | Code(_) => TextTokens(StringOf(v))
    case Object(d) => DocTokens(d, true)
    case Array(d) => DocTokens(d, true)
    case DBRef(_, _) => [Num(|EncValue(v)| as real)] + ByteTokens(EncValue(v))
    case BinData(s, d) => [Num(|d| as real)] + ByteTokens([s] + d)
    case RegEx(p, o) => TextTokens(p) + TextTokens(o)
    case CodeWScope(c, scope) => TextTokens(c) + TextTokens(EncDoc(scope))
  }

  function FieldTokens(f: Field, names: bool): seq<Token>
    decreases f, 0
  {
    [Num(CanonicalType(f.value) as real)] + (NameTokens(f, names) + ValueTokens(f.value))
  }

  function NameTokens(f: Field, names: bool): seq<Token> {
    if names then TextTokens(f.name) else []
  }

  function DocTokens(d: Doc, names: bool): seq<Token>
    decreases d, 0
  {
    if d == [] then [End] else FieldTokens(d[0], names) + DocTokens(d[1..], names)
  }

  /** Every `long long` that is compared as a number is one a double can hold. */
  predicate ExactValue(v: Value)
    decreases v, 0
  {
    match v
    case Long(l) => ExactLong(l)
    case Object(d) => ExactDoc(d)
    case Array(d) => ExactDoc(d)
    case _ => true
  }

  predicate ExactDoc(d: Doc)
    decreases d, 0
  {
    d == [] || (ExactValue(d[0].value) && ExactDoc(d[1..]))
  }

  // ---- The two agree ----

  lemma {:induction false} ValuesByTokens(l: Value, r: Value)
    requires CanonicalType(l) == CanonicalType(r) && ExactValue(l) && ExactValue(r)
    ensures Sign(CompareValues(l, r)) == Lex(ValueTokens(l), ValueTokens(r))
    ensures Decided(ValueTokens(l), ValueTokens(r))
    decreases l, 0
  {
    if l.Object? || l.Array? {
      var d := if l.Object? then l.doc else l.items;
      var e := if l.Object? then r.doc else r.items;
      hide Lex, Decided, DocTokens, CompareDocs;
      DocsByTokens(d, e, true);
    } else {
      LeavesByTokens(l, r);
    }
  }

  lemma LeavesByTokens(l: Value, r: Value)
    requires CanonicalType(l) == CanonicalType(r) && ExactValue(l) && ExactValue(r) && !l.Object? && !l.Array?
    ensures Sign(CompareValues(l, r)) == Lex(ValueTokens(l), ValueTokens(r))
    ensures Decided(ValueTokens(l), ValueTokens(r))
  {
    hide TextTokens, ByteTokens, StrCmp, MemCmp, EncValue, EncDoc, DoubleToken, LongAsDouble;
    match l
    case Str(_) | Symbol(_) | Code(_) => StrCmpByTokens(StringOf(l), StringOf(r));
    case Oid(id) => MemCmpByTokens(id, r.id);
    case DBRef(_, _) => SizedByTokens(EncValue(l), EncValue(r), |EncValue(l)|, |EncValue(r)|);
    case BinData(s, d) => SizedByTokens([s] + d, [r.subtype] + r.data, |d|, |r.data|);
    case RegEx(p, o) => PairByTokens(p, r.pattern, o, r.options);
    case CodeWScope(c, scope) => PairByTokens(c, r.source, EncDoc(scope), EncDoc(r.scope));
    case Double(_) | Int(_) | Long(_) => NumbersByTokens(l, r);
    case Bool(b) => LexOne(Num(if b then 1.0 else 0.0), Num(if r.b then 1.0 else 0.0));
    case Date(_) | Timestamp(_) => LexOne(Num(Moment(l) as real), Num(Moment(r) as real));
    case _ =>
  }

  lemma NumbersByTokens(l: Value, r: Value)
    requires IsNumber(l) && IsNumber(r) && ExactValue(l) && ExactValue(r)
    ensures CompareValues(l, r) == Lex(ValueTokens(l), ValueTokens(r))
    ensures Decided(ValueTokens(l), ValueTokens(r))
  {
    hide DoubleToken, LongAsDouble;
    assert ValueTokens(l) == [Number(l)] && ValueTokens(r) == [Number(r)];
    LexOne(Number(l), Number(r));
    assert CompareNumbers(Number(l), Number(r)) == CompareTokens(Number(l), Number(r));
  }

  lemma PairByTokens(a: seq<byte>, b: seq<byte>, x: seq<byte>, y: seq<byte>)
    ensures var s, t := TextTokens(a) + TextTokens(x), TextTokens(b) + TextTokens(y);
            Decided(s, t) && Lex(s, t) == if StrCmp(a, b) != 0 then StrCmp(a, b) else StrCmp(x, y)
  {
    StrCmpByTokens(a, b);
    StrCmpByTokens(x, y);
    LexConcat(TextTokens(a), TextTokens(b), TextTokens(x), TextTokens(y));
  }

  lemma {:induction false} ElementsByTokens(l: Field, r: Field, names: bool)
    requires ExactValue(l.value) && ExactValue(r.value)
    ensures Sign(CompareElements(l, r, names)) == Lex(FieldTokens(l, names), FieldTokens(r, names))
    ensures Decided(FieldTokens(l, names), FieldTokens(r, names))
    decreases l, 0
  {
    hide Lex, Decided, TextTokens, ValueTokens, StrCmp, CompareValues;
    var c, d := [Num(CanonicalType(l.value) as real)], [Num(CanonicalType(r.value) as real)];
    LexOne(c[0], d[0]);
    var m, n := NameTokens(l, names), NameTokens(r, names);
    assert Decided(m, n) && Lex(m, n) == (if names then StrCmp(l.name, r.name) else 0) by {
      if names {
        StrCmpByTokens(l.name, r.name);
      } else {
        NothingDecided();
      }
    }
    var v, w := ValueTokens(l.value), ValueTokens(r.value);
    LexConcat(m, n, v, w);
    LexConcat(c, d, m + v, n + w);
    if CanonicalType(l.value) == CanonicalType(r.value) {
      ValuesByTokens(l.value, r.value);
    }
  }

  lemma NothingDecided()
    ensures Decided([], []) && Lex([], []) == 0
  {
  }

  /**
   `woCompare` is lexicographic comparison of the documents' tokens; so it is a total preorder, and
   two documents compare equal exactly when their tokens are the same.
   */
  lemma {:induction false} DocsByTokens(l: Doc, r: Doc, names: bool)
    requires ExactDoc(l) && ExactDoc(r)
    ensures Sign(CompareDocs(l, r, [], names)) == Lex(DocTokens(l, names), DocTokens(r, names))
    ensures Decided(DocTokens(l, names), DocTokens(r, names))
    decreases l, 0
  {
    if l == [] || r == [] {
      EndFirst(l, r, names);
    } else {
      hide Lex, Decided, FieldTokens, CompareElements;
      ElementsByTokens(l[0], r[0], names);
      DocsByTokens(l[1..], r[1..], names);
      LexConcat(FieldTokens(l[0], names), FieldTokens(r[0], names), DocTokens(l[1..], names), DocTokens(r[1..], names));
    }
  }

  lemma EndFirst(l: Doc, r: Doc, names: bool)
    requires l == [] || r == []
    ensures Lex(DocTokens(l, names), DocTokens(r, names)) == if l == [] then (if r == [] then 0 else -1) else 1
    ensures Decided(DocTokens(l, names), DocTokens(r, names))
  {
    assert DocTokens([], names) == [End] && [End][1..] == [];
    if l != [] {
      ClassFirst(l, names);
    }
    if r != [] {
      ClassFirst(r, names);
    }
  }

  lemma ClassFirst(d: Doc, names: bool)
    requires d != []
    ensures DocTokens(d, names) != [] && DocTokens(d, names)[0].Num?
  {
    var f, rest := FieldTokens(d[0], names), DocTokens(d[1..], names);
    assert DocTokens(d, names) == f + rest && (f + rest)[0] == f[0];
  }

  // ---- Total preorder, for any choice of descending positions ----

  /** The element order is a total preorder. */
  lemma ElementsPreorder(a: Field, b: Field, c: Field, names: bool)
    requires ExactValue(a.value) && ExactValue(b.value) && ExactValue(c.value)
    ensures CompareElements(a, a, names) == 0
    ensures Sign(CompareElements(b, a, names)) == -Sign(CompareElements(a, b, names))
    ensures var x, y, z := CompareElements(a, b, names), CompareElements(b, c, names), CompareElements(a, c, names);
            && (x <= 0 && y <= 0 ==> z <= 0 && (z == 0 ==> x == 0 && y == 0))
            && (x >= 0 && y >= 0 ==> z >= 0 && (z == 0 ==> x == 0 && y == 0))
  {
    hide Lex, FieldTokens, CompareElements, ExactValue, Decided;
    ElementsByTokens(a, a, names);
    ElementsByTokens(a, b, names);
    ElementsByTokens(b, a, names);
    ElementsByTokens(b, c, names);
    ElementsByTokens(a, c, names);
    var s, t, u := FieldTokens(a, names), FieldTokens(b, names), FieldTokens(c, names);
    LexEqual(s, s);
    LexEqual(s, t);
    LexEqual(t, u);
    LexEqual(s, u);
    if Lex(s, t) <= 0 && Lex(t, u) <= 0 {
      LexTrans(s, t, u);
    }
    if Lex(s, t) >= 0 && Lex(t, u) >= 0 {
      LexTrans(u, t, s);
    }
  }

  lemma {:induction false} CompareReflexive(a: Doc, down: seq<bool>, names: bool)
    requires ExactDoc(a)
    ensures CompareDocs(a, a, down, names) == 0
    decreases a
  {
    if a != [] {
      ElementsPreorder(a[0], a[0], a[0], names);
      CompareReflexive(a[1..], if down == [] then [] else down[1..], names);
    }
  }

  lemma {:induction false} CompareAntisymmetric(a: Doc, b: Doc, down: seq<bool>, names: bool)
    requires ExactDoc(a) && ExactDoc(b)
    ensures Sign(CompareDocs(b, a, down, names)) == -Sign(CompareDocs(a, b, down, names))
    decreases a
  {
    if a != [] && b != [] {
      hide CompareElements, ExactValue;
      ElementsPreorder(a[0], b[0], b[0], names);
      CompareAntisymmetric(a[1..], b[1..], if down == [] then [] else down[1..], names);
    }
  }

  lemma {:induction false} CompareTransitive(a: Doc, b: Doc, c: Doc, down: seq<bool>, names: bool)
    requires ExactDoc(a) && ExactDoc(b) && ExactDoc(c)
    requires CompareDocs(a, b, down, names) <= 0 && CompareDocs(b, c, down, names) <= 0
    ensures CompareDocs(a, c, down, names) <= 0
    ensures CompareDocs(a, c, down, names) == 0 ==>
        CompareDocs(a, b, down, names) == 0 && CompareDocs(b, c, down, names) == 0
    decreases a
  {
    if a != [] && b != [] && c != [] {
      hide CompareElements, ExactValue;
      ElementsPreorder(a[0], b[0], c[0], names);
      if CompareElements(a[0], b[0], names) == 0 && CompareElements(b[0], c[0], names) == 0 {
        CompareTransitive(a[1..], b[1..], c[1..], if down == [] then [] else down[1..], names);
      }
    }
  }

  /** Equal in the order, and equal tokens, are the same. */
  lemma EqualByTokens(a: Doc, b: Doc, names: bool)
    requires ExactDoc(a) && ExactDoc(b)
    ensures CompareDocs(a, b, [], names) == 0 <==> DocTokens(a, names) == DocTokens(b, names)
  {
    DocsByTokens(a, b, names);
    LexEqual(DocTokens(a, names), DocTokens(b, names));
  }

  // ---- How far the condition on longs can be relaxed ----

  predicate LongsWithinValue(v: Value, bound: int)
    decreases v, 0
  {
    match v
    case Long(l) => -bound <= l <= bound
    case Object(d) => LongsWithin(d, bound)
    case Array(d) => LongsWithin(d, bound)
    case _ => true
  }

  predicate LongsWithin(d: Doc, bound: int)
    decreases d, 0
  {
    d == [] || (LongsWithinValue(d[0].value, bound) && LongsWithin(d[1..], bound))
  }

  lemma {:induction false} WithinIsExact(d: Doc)
    requires LongsWithin(d, TWO53)
    ensures ExactDoc(d)
    decreases d, 0
  {
    if d != [] {
      WithinIsExactValue(d[0].value);
      WithinIsExact(d[1..]);
    }
  }

  lemma {:induction false} WithinIsExactValue(v: Value)
    requires LongsWithinValue(v, TWO53)
    ensures ExactValue(v)
    decreases v, 0
  {
    match v
    case Long(l) => SmallLongsExact(l);
    case Object(d) => WithinIsExact(d);
    case Array(d) => WithinIsExact(d);
    case _ =>
  }

  lemma {:induction false} WithinMonotone(d: Doc, b: int, c: int)
    requires LongsWithin(d, b) && b <= c
    ensures LongsWithin(d, c)
    decreases d, 0
  {
    if d != [] {
      WithinMonotone(d[1..], b, c);
      match d[0].value
      case Object(e) => WithinMonotone(e, b, c);
      case Array(e) => WithinMonotone(e, b, c);
      case _ =>
    }
  }

  ghost predicate TransitiveWithin(bound: int) {
    forall a, b, c ::
      LongsWithin(a, bound) && LongsWithin(b, bound) && LongsWithin(c, bound)
      && CompareDocs(a, b, [], true) <= 0 && CompareDocs(b, c, [], true) <= 0
      ==> CompareDocs(a, c, [], true) <= 0
  }

  /** `{a: 2^53 + 1}`, `{a: 2.0^53}` and `{a: 2^53}`: each compares equal to the next, the first above the last. */
  lemma LongsCanCycle()
    ensures var a, b, c := [Field([0x61], Long(TWO53 + 1))], [Field([0x61], Double([0, 0, 0, 0, 0, 0, 64, 67]))],
                           [Field([0x61], Long(TWO53))];
            && CompareDocs(a, b, [], true) == 0 && CompareDocs(b, c, [], true) == 0
            && CompareDocs(a, c, [], true) == 1
  {
    var bits: DoubleBits := [0, 0, 0, 0, 0, 0, 64, 67];
    assert Mantissa(bits) == 0 && Exponent(bits) == 1076;
    assert Pow2(1) == 2.0;
    assert DoubleToken(bits) == Num(TWO53 as real);
    assert Rounded(TWO53 + 1, 2) == TWO53 && Rounded(TWO53, 2) == TWO53;
    assert Rounded(TWO53 + 1, 1) == TWO53 && Rounded(TWO53, 1) == TWO53;
    assert StrCmp([0x61], [0x61]) == 0;
    var a, b, c := Field([0x61], Long(TWO53 + 1)), Field([0x61], Double(bits)), Field([0x61], Long(TWO53));
    OneFieldEach(a, b);
    OneFieldEach(b, c);
    OneFieldEach(a, c);
  }

  lemma OneFieldEach(f: Field, g: Field)
    ensures CompareDocs([f], [g], [], true) == CompareElements(f, g, true)
  {
    assert [f][1..] == [] && [g][1..] == [];
    assert CompareDocs([], [], [], true) == 0;
  }

  /** The comparison is transitive for longs up to a bound exactly when the bound is at most 2^53. */
  lemma BoundIsSharp(bound: int)
    ensures TransitiveWithin(bound) <==> bound <= TWO53
  {
    hide CompareDocs, LongsWithin;
    if bound <= TWO53 {
      forall a: Doc, b: Doc, c: Doc | LongsWithin(a, bound) && LongsWithin(b, bound) && LongsWithin(c, bound)
                      && CompareDocs(a, b, [], true) <= 0 && CompareDocs(b, c, [], true) <= 0
        ensures CompareDocs(a, c, [], true) <= 0
      {
        WithinMonotone(a, bound, TWO53);
        WithinMonotone(b, bound, TWO53);
        WithinMonotone(c, bound, TWO53);
        WithinIsExact(a);
        WithinIsExact(b);
        WithinIsExact(c);
        CompareTransitive(a, b, c, [], true);
      }
    } else {
      LongsCanCycle();
      CycleWithin(bound);
    }
  }

  lemma CycleWithin(bound: int)
    requires bound > TWO53
    ensures LongsWithin([Field([0x61], Long(TWO53 + 1))], bound) && LongsWithin([Field([0x61], Long(TWO53))], bound)
    ensures LongsWithin([Field([0x61], Double([0, 0, 0, 0, 0, 0, 64, 67]))], bound)
  {
    OneWithin(Field([0x61], Long(TWO53 + 1)), bound);
    OneWithin(Field([0x61], Long(TWO53)), bound);
    OneWithin(Field([0x61], Double([0, 0, 0, 0, 0, 0, 64, 67])), bound);
  }

  lemma OneWithin(f: Field, bound: int)
    ensures LongsWithin([f], bound) <==> LongsWithinValue(f.value, bound)
  {
    assert [f][1..] == [];
  }
}
