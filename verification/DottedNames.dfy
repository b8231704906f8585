/** `compareDottedFieldNames`: names compared component by component. */
module DottedNames {
  import opened BsonTypes
  import opened BsonOrder
  import opened LexNum

  const MAX_LOOPS: nat := 1024 * 1024

  datatype FieldCompareResult = LeftSubfield | LeftBefore | Same | RightBefore | RightSubfield

  /** The components between dots; a dot at the very end opens no further component. */
  function Components(name: CString): (c: seq<CString>)
    decreases |name|
  {
    if name == [] then []
    else
      var i := IndexOfDot(name);
      [name[..i]] + Components(if i < |name| then name[i + 1..] else [])
  }

  function CompareNames(a: CString, b: CString): int {
    Lex(NameTokens(a), NameTokens(b))
  }

  function CompareComponents(l: seq<CString>, r: seq<CString>): FieldCompareResult {
    if l == [] then (if r == [] then Same else RightSubfield)
    else if r == [] then LeftSubfield
    else
      var x := CompareNames(l[0], r[0]);
      if x < 0 then LeftBefore else if x > 0 then RightBefore else CompareComponents(l[1..], r[1..])
  }

  /** The first `n` components agree. */
  predicate AgreeUpTo(l: seq<CString>, r: seq<CString>, n: nat) {
    n <= |l| && n <= |r| && forall i :: 0 <= i < n ==> CompareNames(l[i], r[i]) == 0
  }

  function Mirror(x: FieldCompareResult): FieldCompareResult {
    match x
    case LeftSubfield => RightSubfield
    case LeftBefore => RightBefore
    case Same => Same
    case RightBefore => LeftBefore
    case RightSubfield => LeftSubfield
  }

  /** Swapping the arguments mirrors the result. */
  lemma {:induction false} MirrorSymmetric(l: seq<CString>, r: seq<CString>)
    ensures CompareComponents(r, l) == Mirror(CompareComponents(l, r))
    decreases |l|
  {
    if l != [] && r != [] {
      hide Lex, NameTokens;
      LexNumPreorder(l[0], r[0], r[0]);
      MirrorSymmetric(l[1..], r[1..]);
    }
  }

  lemma AgreeNext(l: seq<CString>, r: seq<CString>, n: nat)
    requires l != [] && r != [] && n > 0
    ensures AgreeUpTo(l, r, n) <==> CompareNames(l[0], r[0]) == 0 && AgreeUpTo(l[1..], r[1..], n - 1)
  {
    hide CompareNames;
    if AgreeUpTo(l[1..], r[1..], n - 1) && CompareNames(l[0], r[0]) == 0 {
      forall i | 0 <= i < n
        ensures CompareNames(l[i], r[i]) == 0
      {
        if i > 0 {
          assert l[i] == l[1..][i - 1] && r[i] == r[1..][i - 1];
        }
      }
    }
    if AgreeUpTo(l, r, n) {
      forall i | 0 <= i < n - 1
        ensures CompareNames(l[1..][i], r[1..][i]) == 0
      {
        assert l[1..][i] == l[i + 1] && r[1..][i] == r[i + 1];
      }
    }
  }

  /** A subfield is a longer component list that the other is a prefix of, up to `lexNumCmp` equality. */
  lemma {:induction false} SubfieldIsExtension(l: seq<CString>, r: seq<CString>)
    ensures CompareComponents(l, r).Same? <==> |l| == |r| && AgreeUpTo(l, r, |l|)
    ensures CompareComponents(l, r).LeftSubfield? <==> |r| < |l| && AgreeUpTo(l, r, |r|)
    ensures CompareComponents(l, r).RightSubfield? <==> |l| < |r| && AgreeUpTo(l, r, |l|)
    decreases |l|
  {
    if l != [] && r != [] {
      hide CompareNames, AgreeUpTo;
      SubfieldIsExtension(l[1..], r[1..]);
      AgreeNext(l, r, |l|);
      AgreeNext(l, r, |r|);
      AgreeShort(l, r);
    }
  }

  lemma AgreeShort(l: seq<CString>, r: seq<CString>)
    ensures |l| > |r| ==> !AgreeUpTo(l, r, |l|)
    ensures |r| > |l| ==> !AgreeUpTo(l, r, |r|)
  {
  }

  /** Otherwise the first component that differs decides. */
  lemma {:induction false} BeforeAtFirstDifference(l: seq<CString>, r: seq<CString>, n: nat)
    requires AgreeUpTo(l, r, n) && n < |l| && n < |r| && CompareNames(l[n], r[n]) != 0
    ensures CompareComponents(l, r) == if CompareNames(l[n], r[n]) < 0 then LeftBefore else RightBefore
    decreases n
  {
    hide CompareNames;
    if n > 0 {
      AgreeNext(l, r, n);
      BeforeAtFirstDifference(l[1..], r[1..], n - 1);
    }
  }

  /** The components that start at `at`, `at` being a start or one past the end. */
  function Rest(name: CString, at: nat): seq<CString> {
    if at >= |name| then [] else Components(name[at..])
  }

  /** The position `string::find('.', at)` gives, or the end. */
  method ComponentEnd(name: CString, at: nat) returns (end: nat)
    requires at < |name|
    ensures at <= end <= |name| && Rest(name, at) == [name[at..end]] + Rest(name, end + 1)
  {
    ghost var s := name[at..];
    var i := IndexOfDot(name[at..]);
    end := at + i;
    assert s[..i] == name[at..end];
    if i < |s| {
      assert s[i + 1..] == name[end + 1..];
      assert Components(s) == [s[..i]] + Components(name[end + 1..]);
    } else {
      assert Components(s) == [s[..i]] + Components([]);
    }
  }

  /** The loop, given up after `MAX_LOOPS` components: `tooMany` is the source's failed assertion. */
  method CompareDottedFieldNames(l: CString, r: CString) returns (res: FieldCompareResult, tooMany: bool)
    ensures tooMany <==> AgreeUpTo(Components(l), Components(r), MAX_LOOPS)
    ensures !tooMany ==> res == CompareComponents(Components(l), Components(r))
  {
    hide CompareNames, AgreeUpTo, CompareComponents, Components, Rest, NameTokens, Lex;
    ghost var cl, cr := Components(l), Components(r);
    RestAtStart(l);
    RestAtStart(r);
    RestStep(cl, cr, Rest(l, 0), Rest(r, 0), 0);
    var lstart, rstart := 0, 0;
    var i := 0;
    while i < MAX_LOOPS
      invariant i <= MAX_LOOPS && i <= |cl| && i <= |cr| && AgreeUpTo(cl, cr, i)
      invariant Rest(l, lstart) == cl[i..] && Rest(r, rstart) == cr[i..]
      invariant CompareComponents(cl[i..], cr[i..]) == CompareComponents(cl, cr)
    {
      RestStep(cl, cr, Rest(l, lstart), Rest(r, rstart), i);
      RestEmpty(l, lstart);
      RestEmpty(r, rstart);
      if lstart >= |l| {
        return if rstart >= |r| then Same else RightSubfield, false;
      }
      if rstart >= |r| {
        return LeftSubfield, false;
      }
      var lend := ComponentEnd(l, lstart);
      var rend := ComponentEnd(r, rstart);
      var x := LexNumCmp(l[lstart..lend], r[rstart..rend]);
      assert x == CompareNames(cl[i], cr[i]) by { NamesCompared(l[lstart..lend], r[rstart..rend]); }
      if x < 0 {
        return LeftBefore, false;
      }
      if x > 0 {
        return RightBefore, false;
      }
      lstart, rstart := lend + 1, rend + 1;
      assert cl[i..][1..] == cl[i + 1..] && cr[i..][1..] == cr[i + 1..];
      i := i + 1;
    }
    return Same, true;
  }

  lemma NamesCompared(a: CString, b: CString)
    ensures CompareNames(a, b) == Lex(NameTokens(a), NameTokens(b))
  {
  }

  lemma RestAtStart(name: CString)
    ensures Rest(name, 0) == Components(name)
  {
    assert name[0..] == name;
  }

  lemma RestEmpty(name: CString, at: nat)
    ensures Rest(name, at) == [] <==> at >= |name|
  {
  }

  /** One turn: what the loop decides at component `i`, and that deciding rules out agreement to the limit. */
  lemma RestStep(cl: seq<CString>, cr: seq<CString>, l: seq<CString>, r: seq<CString>, i: nat)
    requires i <= |cl| && i <= |cr| && l == cl[i..] && r == cr[i..]
    ensures AgreeUpTo(cl, cr, 0) && cl[0..] == cl && cr[0..] == cr
    ensures l == [] || r == [] ==>
              CompareComponents(l, r) == (if l != [] then LeftSubfield else if r != [] then RightSubfield else Same)
              && (i < MAX_LOOPS ==> !AgreeUpTo(cl, cr, MAX_LOOPS))
    ensures l != [] && r != [] ==>
              var x := CompareNames(cl[i], cr[i]);
              && CompareComponents(l, r) ==
                  (if x < 0 then LeftBefore else if x > 0 then RightBefore else CompareComponents(l[1..], r[1..]))
              && (x != 0 && i < MAX_LOOPS ==> !AgreeUpTo(cl, cr, MAX_LOOPS))
              && (x == 0 && AgreeUpTo(cl, cr, i) ==> AgreeUpTo(cl, cr, i + 1))
  {
    hide CompareNames;
  }
}
