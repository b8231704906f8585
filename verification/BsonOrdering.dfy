/** The loops of `woCompare` under a key pattern, and under the bits `Ordering` condenses one into. */
module BsonOrdering {
  import opened BsonTypes
  import opened Bits
  import opened BsonOrder
  import opened BsonCompare
  import opened BsonEncoding

  /** Which positions a key pattern makes descending. */
  function Descending(key: Doc): (down: seq<bool>)
    ensures |down| == |key|
  {
    seq(|key|, i requires 0 <= i < |key| => Negative(key[i].value))
  }

  // ---- Ordering ----

  datatype Ordering = Ordering(bits: bv32, nkeys: nat) {
    predicate Descending(mask: bv32) {
      Test(bits, mask)
    }
  }

  /** The descending positions an ordering stands for. */
  function Positions(o: Ordering): (down: seq<bool>)
    ensures |down| == 32
  {
    seq(32, i requires 0 <= i < 32 => o.Descending(Mask(i)))
  }

  /** Testing the mask is looking the position up, also where the mask has been shifted out. */
  lemma BitIsPosition(o: Ordering, i: nat)
    ensures o.Descending(Mask(i)) <==> i < 32 && Positions(o)[i]
  {
    hide Mask, Test;
    MaskZero(i);
    TestZero(o.bits);
  }

  /** `Ordering::make`: refuses more than 32 keys, and records exactly the descending positions. */
  method Make(obj: Doc) returns (r: Option<Ordering>)
    ensures r.Some? <==> |obj| <= 32
    ensures r.Some? ==> r.value.nkeys == |obj| && MadeFrom(r.value, obj)
  {
    hide Mask, Test, Or;
    var b: bv32, n := 0, 0;
    forall i: nat
      ensures !Test(b, Mask(i))
    {
      TestZero(Mask(i));
    }
    while n < |obj|
      invariant 0 <= n <= |obj| && n <= 32
      invariant forall i: nat :: i < 32 ==> (Test(b, Mask(i)) <==> i < n && Negative(obj[i].value))
    {
      if n > 31 {
        return None;
      }
      var e := obj[n].value;
      if Negative(e) {
        forall i: nat | i < 32
          ensures Test(Or(b, Mask(n)), Mask(i)) <==> Test(b, Mask(i)) || i == n
        {
          SetBit(b, n, i);
        }
        b := Or(b, Mask(n));
      }
      n := n + 1;
    }
    return Some(Ordering(b, n));
  }

  // ---- The loops ----

  /** Comparing from position i on. */
  function From(l: Doc, r: Doc, down: seq<bool>, names: bool, i: nat): int
    requires i <= |l| && i <= |r|
  {
    CompareDocs(l[i..], r[i..], if i < |down| then down[i..] else [], names)
  }

  lemma FromStep(l: Doc, r: Doc, down: seq<bool>, names: bool, i: nat)
    requires i <= |l| && i <= |r|
    ensures From(l, r, down, names, i) ==
            if i == |l| then (if i == |r| then 0 else -1)
            else if i == |r| then 1
            else
              var x := CompareElements(l[i], r[i], names);
              var y := if i < |down| && down[i] then -x else x;
              if y != 0 then y else From(l, r, down, names, i + 1)
  {
    hide CompareElements;
    if i < |l| && i < |r| {
      assert l[i..][1..] == l[i + 1..] && r[i..][1..] == r[i + 1..];
      assert i < |down| ==> down[i..][1..] == down[i + 1..];
    }
  }

  lemma FromStart(l: Doc, r: Doc, down: seq<bool>, names: bool)
    ensures From(l, r, down, names, 0) == CompareDocs(l, r, down, names)
  {
    assert l[0..] == l && r[0..] == r && (if 0 < |down| then down[0..] else []) == down;
  }

  /**
   `woCompare` under a key pattern. The source reads past the pattern's end when both documents have
   more fields than it.
   */
  method WoCompare(l: Doc, r: Doc, key: Doc, names: bool) returns (x: int)
    requires key == [] || |l| <= |key| || |r| <= |key|
    ensures x == CompareDocs(l, r, Descending(key), names)
  {
    hide CompareElements, CompareDocs, From;
    ghost var down := Descending(key);
    FromStart(l, r, down, names);
    if l == [] {
      FromStep(l, r, down, names, 0);
      return if r == [] then 0 else -1;
    }
    if r == [] {
      FromStep(l, r, down, names, 0);
      return 1;
    }
    var ordered := key != [];
    var i := 0;
    while true
      invariant i <= |l| && i <= |r|
      invariant From(l, r, down, names, i) == CompareDocs(l, r, down, names)
      decreases |l| - i
    {
      FromStep(l, r, down, names, i);
      if i == |l| {
        return if i == |r| then 0 else -1;
      }
      if i == |r| {
        return 1;
      }
      x := CompareElements(l[i], r[i], names);
      if ordered && i < |key| && Negative(key[i].value) {
        x := -x;
      }
      if x != 0 {
        return x;
      }
      i := i + 1;
    }
  }

  /** `woCompare` under an `Ordering`: the mask moves with the position. */
  method WoCompareOrdered(l: Doc, r: Doc, o: Ordering, names: bool) returns (x: int)
    ensures x == CompareDocs(l, r, Positions(o), names)
  {
    hide CompareElements, CompareDocs, From, Mask, Positions, Test, Shl;
    ghost var down := Positions(o);
    MaskStep(0);
    FromStart(l, r, down, names);
    if l == [] {
      FromStep(l, r, down, names, 0);
      return if r == [] then 0 else -1;
    }
    if r == [] {
      FromStep(l, r, down, names, 0);
      return 1;
    }
    var mask: bv32 := 1;
    ghost var i := 0;
    var a, b := l, r;
    while true
      invariant i <= |l| && i <= |r| && mask == Mask(i) && a == l[i..] && b == r[i..]
      invariant From(l, r, down, names, i) == CompareDocs(l, r, down, names)
      decreases |l| - i
    {
      FromStep(l, r, down, names, i);
      if a == [] {
        return if b == [] then 0 else -1;
      }
      if b == [] {
        return 1;
      }
      x := CompareElements(a[0], b[0], names);
      BitIsPosition(o, i);
      MaskStep(i);
      if o.Descending(mask) {
        x := -x;
      }
      if x != 0 {
        return x;
      }
      mask := Shl(mask);
      a, b, i := a[1..], b[1..], i + 1;
    }
  }

  /** Positions marked ascending at the end make no difference. */
  lemma {:induction false} TrailingAscending(l: Doc, r: Doc, down: seq<bool>, more: seq<bool>, names: bool)
    requires down <= more && forall i :: |down| <= i < |more| ==> !more[i]
    ensures CompareDocs(l, r, down, names) == CompareDocs(l, r, more, names)
    decreases l
  {
    if l != [] && r != [] {
      hide CompareElements;
      var downRest, moreRest := if down == [] then [] else down[1..], if more == [] then [] else more[1..];
      TrailingAscending(l[1..], r[1..], downRest, moreRest, names);
    }
  }

  /** What `Make` ensures of the ordering it returns. */
  predicate MadeFrom(o: Ordering, key: Doc) {
    |key| <= 32 && forall i :: 0 <= i < 32 ==> Positions(o)[i] == (i < |key| && Descending(key)[i])
  }

  /** Comparing under `Ordering::make(key)` is comparing under `key`, for every key it accepts and all documents. */
  lemma OrderingAgrees(l: Doc, r: Doc, key: Doc, o: Ordering, names: bool)
    requires MadeFrom(o, key)
    ensures CompareDocs(l, r, Positions(o), names) == CompareDocs(l, r, Descending(key), names)
  {
    hide CompareDocs;
    assert Descending(key) <= Positions(o);
    TrailingAscending(l, r, Descending(key), Positions(o), names);
  }

  // ---- Which keys make a position descending ----

  lemma {:induction false} RoundedPositive(m: nat, unit: nat)
    requires unit > 0 && (unit == 1 || TWO53 * unit <= 2 * m)
    ensures m > 0 ==> Rounded(m, unit) > 0
    decreases if m > unit then m - unit else 0
  {
    if m >= TWO53 * unit {
      RoundedPositive(m, 2 * unit);
    } else if unit > 1 {
      assert m / unit >= 1;
    }
  }

  lemma {:induction false} Pow2Positive(e: int)
    ensures Pow2(e) > 0.0
    decreases if e < 0 then -e else e
  {
    if e > 0 {
      Pow2Positive(e - 1);
    } else if e < 0 {
      Pow2Positive(e + 1);
    }
  }

  lemma TimesPositive(n: nat, x: real)
    requires x > 0.0
    ensures 1.0 * n as real * x >= 0.0 && (n > 0 ==> -1.0 * n as real * x < 0.0)
        && (n == 0 ==> -1.0 * n as real * x == 0.0)
  {
  }

  /** Minus zero is not below zero, nor is a NaN; minus infinity is. */
  predicate DoubleBelowZero(b: DoubleBits) {
    && b[7] >= 128
    && (Exponent(b) == 2047 ==> Mantissa(b) == 0)
    && (Exponent(b) == 0 ==> Mantissa(b) != 0)
  }

  /** A key's value makes its position descending exactly when it is a number below zero. */
  lemma DescendingBelowZero(v: Value)
    ensures Negative(v) <==>
            match v
            case Int(i) => i < 0
            case Long(l) => l < 0
            case Double(b) => DoubleBelowZero(b)
            case _ => false
  {
    hide Pow2, Rounded, Mantissa, Exponent;
    match v
    case Long(l) =>
      var m: int := l;
      RoundedPositive(if m < 0 then -m else m, 1);
    case Double(b) =>
      Pow2Positive(-1074);
      Pow2Positive(Exponent(b) - 1075);
      TimesPositive(Mantissa(b), Pow2(-1074));
      TimesPositive(TWO53 / 2 + Mantissa(b), Pow2(Exponent(b) - 1075));
    case _ =>
  }

  /** Under the key `{n: -1}` the comparison of one field is turned round, under `{n: 1}` it is not. */
  lemma KeyOfOneField(n: CString, l: Field, r: Field, names: bool)
    ensures CompareDocs([l], [r], Descending([Field(n, Int(1))]), names) == CompareDocs([l], [r], [], names)
    ensures CompareDocs([l], [r], Descending([Field(n, Int(-1))]), names) == -CompareDocs([l], [r], [], names)
  {
    hide CompareElements;
    DescendingBelowZero(Int(1));
    DescendingBelowZero(Int(-1));
    assert [l][1..] == [] && [r][1..] == [];
    assert Descending([Field(n, Int(1))])[1..] == [] && Descending([Field(n, Int(-1))])[1..] == [];
  }

  /** Each position goes by its own key value, the rest by the rest of the key. */
  lemma KeyByKey(k: Field, key: Doc, l: Field, r: Field, x: Doc, y: Doc, names: bool)
    ensures var first, whole := CompareDocs([l], [r], Descending([k]), names),
                                CompareDocs([l] + x, [r] + y, Descending([k] + key), names);
            whole == if first != 0 then first else CompareDocs(x, y, Descending(key), names)
  {
    hide CompareElements, Negative;
    assert [l][1..] == [] && [r][1..] == [] && ([l] + x)[1..] == x && ([r] + y)[1..] == y;
    assert Descending([k] + key)[1..] == Descending(key) && Descending([k])[1..] == [];
    assert ([k] + key)[0] == k && CompareDocs([], [], [], names) == 0;
  }
}
