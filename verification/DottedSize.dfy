/**
 The size of what `dotted2nested` builds, from the names and values of the flat document alone: a
 caller can tell beforehand whether the conversion will be refused.
 */
module DottedSize {
  import opened BsonTypes
  import opened BsonEncoding
  import opened DottedNested
  import opened DottedPrefixes
  import opened DottedBytes

  // ---- The closed form ----

  /** What stands behind the last dot of a name. */
  function Last(name: CString): CString {
    var n := |name| - 1;
    if n < 0 || name[n] == DOT then [] else Last(name[..n]) + [name[n]]
  }

  /** The distinct dotted prefixes of a document's names, each with its final dot. */
  function Prefixes(d: Doc): set<CString> {
    set f, k | f in d && 0 < k <= |f.name| && f.name[k - 1] == DOT :: f.name[..k]
  }

  /** Type byte, name, NUL, length and final NUL of the subobject a prefix becomes. */
  function PrefixCost(p: CString): nat {
    if p == [] then 0 else |Last(p[..|p| - 1])| + 7
  }

  ghost function PrefixCosts(ps: set<CString>): nat {
    if ps == {} then 0
    else
      var p :| p in ps;
      PrefixCost(p) + PrefixCosts(ps - {p})
  }

  /** Type byte, last component, NUL and value of each field. */
  function LeafCosts(d: Doc): nat {
    if d == [] then 0
    else
      var f := d[|d| - 1];
      LeafCosts(d[..|d| - 1]) + |Last(f.name)| + 2 + |EncValue(f.value)|
  }

  ghost function NestedCost(items: Doc): nat {
    5 + LeafCosts(items) + PrefixCosts(Prefixes(items))
  }

  // ---- Sums over prefixes ----

  lemma {:induction false} CostsWithout(ps: set<CString>, p: CString)
    requires p in ps
    ensures PrefixCosts(ps) == PrefixCost(p) + PrefixCosts(ps - {p})
    decreases |ps|
  {
    hide PrefixCost;
    var q :| q in ps && PrefixCosts(ps) == PrefixCost(q) + PrefixCosts(ps - {q});
    if q != p {
      CostsWithout(ps - {q}, p);
      CostsWithout(ps - {p}, q);
      assert ps - {q} - {p} == ps - {p} - {q};
    }
  }

  lemma {:induction false} CostsUnion(ps: set<CString>, qs: set<CString>)
    requires ps !! qs
    ensures PrefixCosts(ps + qs) == PrefixCosts(ps) + PrefixCosts(qs)
    decreases |qs|
  {
    hide PrefixCost, PrefixCosts;
    if qs == {} {
      assert ps + qs == ps;
      NoCosts();
    } else {
      var q :| q in qs;
      CostsWithout(qs, q);
      CostsWithout(ps + qs, q);
      CostsUnion(ps, qs - {q});
      assert ps + qs - {q} == ps + (qs - {q});
    }
  }

  lemma NoCosts()
    ensures PrefixCosts({}) == 0
  {
  }

  // ---- Prefixes of one name ----

  /** The dotted prefixes of a name that are longer than `base`. */
  function Beyond(base: CString, name: CString): set<CString> {
    set k | |base| < k <= |name| && name[k - 1] == DOT :: name[..k]
  }

  predicate DirPath(base: CString) {
    base == [] || base[|base| - 1] == DOT
  }

  lemma {:induction false} LastOf(base: CString, c: CString)
    requires DirPath(base) && DOT !in c
    ensures Last(base + c) == c
    decreases |c|
  {
    var n := |c| - 1;
    if n < 0 {
      assert base + c == base;
    } else {
      assert (base + c)[..|base| + n] == base + c[..n];
      LastOf(base, c[..n]);
    }
  }

  lemma CostOf(base: CString, c: CString)
    requires DirPath(base) && DOT !in c
    ensures PrefixCost(base + c + [DOT]) == |c| + 7
  {
    var p := base + c + [DOT];
    assert p[..|p| - 1] == base + c;
    LastOf(base, c);
  }

  lemma BeyondNone(base: CString, last: CString)
    requires DOT !in last
    ensures Beyond(base, base + last) == {}
  {
    PlainPart(base, last, []);
    assert base + last + [] == base + last;
  }

  /** A part without a dot in the middle of a name. */
  lemma PlainPart(base: CString, c: CString, rest: CString)
    requires DOT !in c
    ensures var n := base + c + rest; forall j :: |base| <= j < |base| + |c| ==> n[j] != DOT
  {
    var n := base + c + rest;
    forall j | |base| <= j < |base| + |c|
      ensures n[j] != DOT
    {
      assert n[j] == c[j - |base|];
    }
  }

  lemma BeyondNext(base: CString, c: CString, rest: CString)
    requires DOT !in c
    ensures var n, next := base + c + [DOT] + rest, base + c + [DOT];
            Beyond(base, n) == {next} + Beyond(next, n) && next !in Beyond(next, n)
  {
    var n, next := base + c + [DOT] + rest, base + c + [DOT];
    var at := |next|;
    assert n[..at] == next && n[at - 1] == DOT;
    PlainPart(base, c, [DOT] + rest);
    assert base + c + ([DOT] + rest) == n;
    forall p | p in Beyond(base, n)
      ensures p in {next} + Beyond(next, n)
    {
      var k :| |base| < k <= |n| && n[k - 1] == DOT && p == n[..k];
      assert at <= k;
    }
  }

  lemma BeyondAll(base: CString, n: CString)
    requires base <= n
    ensures Beyond([], n) == Beyond([], base) + Beyond(base, n)
  {
    assert n[..|base|] == base;
    forall p | p in Beyond([], n)
      ensures p in Beyond([], base) + Beyond(base, n)
    {
      var k :| 0 < k <= |n| && n[k - 1] == DOT && p == n[..k];
      if k <= |base| {
        assert base[k - 1] == DOT && p == base[..k];
      }
    }
    forall p | p in Beyond([], base)
      ensures p in Beyond([], n)
    {
      var k :| 0 < k <= |base| && base[k - 1] == DOT && p == base[..k];
      assert n[k - 1] == DOT && p == n[..k];
    }
  }

  lemma PrefixesMore(e: Doc, f: Field)
    ensures Prefixes(e + [f]) == Prefixes(e) + Beyond([], f.name)
  {
    forall p | p in Beyond([], f.name)
      ensures p in Prefixes(e + [f])
    {
      var k :| 0 < k <= |f.name| && f.name[k - 1] == DOT && p == f.name[..k];
      assert f in e + [f];
    }
  }

  lemma InPrefixes(d: Doc, p: CString)
    requires p in Prefixes(d)
    ensures p != [] && p[|p| - 1] == DOT && exists g :: g in d && p <= g.name
  {
    var g, k :| g in d && 0 < k <= |g.name| && g.name[k - 1] == DOT && p == g.name[..k];
    assert p <= g.name;
  }

  // ---- What one item adds ----

  /** Opening the components of a name costs what its new prefixes do. */
  lemma {:induction false} OpenedCost(fs: Stack, rest: CString, n: CString)
    requires Components(fs) && Dotted(rest) && Path(fs) + rest == n
    ensures var (gs, last) := Opened(fs, rest);
            && Components(gs) && Path(gs) + last == n && DOT !in last
            && Weight(gs) == Weight(fs) + PrefixCosts(Beyond(Path(fs), n))
    decreases |rest|
  {
    hide Path, Weight, PrefixCosts, PrefixCost, Beyond, Emitted;
    var i := IndexOfDot(rest);
    if i == |rest| {
      assert rest[..i] == rest;
      BeyondNone(Path(fs), rest);
      NoCosts();
    } else {
      var base, c, more := Path(fs), rest[..i], rest[i + 1..];
      var hs := fs + [Frame(c, [])];
      assert rest == c + [DOT] + more;
      OpenEmits(fs, c);
      OpenWeight(fs, c);
      assert base + c + [DOT] + more == n;
      OpenedCost(hs, more, n);
      PathEndsInDot(fs);
      CostOf(base, c);
      BeyondNext(base, c, more);
      CostsWithout(Beyond(base, n), base + c + [DOT]);
      assert Beyond(base, n) - {base + c + [DOT]} == Beyond(base + c + [DOT], n);
    }
  }

  /** The dotted prefixes of the open path are the paths of the open builders. */
  lemma {:induction false} PathAt(fs: Stack, p: CString)
    requires Components(fs) && p <= Path(fs) && p != [] && p[|p| - 1] == DOT
    ensures exists j :: 1 <= j < |fs| && p == PathTo(fs, j)
    decreases |fs|
  {
    var n := |fs| - 1;
    var up: Stack := fs[..n];
    var base, c := Path(up), fs[n].name;
    assert Path(fs) == base + c + [DOT];
    WholePath(fs);
    hide Path;
    if p != Path(fs) {
      WithinBase(base, c, p);
      PathAt(up, p);
      var j :| 1 <= j < |up| && p == PathTo(up, j);
      SamePathTo(up, fs, j);
    }
  }

  lemma WithinBase(base: CString, c: CString, p: CString)
    requires DOT !in c && p <= base + c + [DOT] && p != base + c + [DOT] && p != [] && p[|p| - 1] == DOT
    ensures p <= base
  {
    var w := base + c + [DOT];
    PlainPart(base, c, [DOT]);
    assert w[|p| - 1] == p[|p| - 1];
    assert |p| <= |base|;
    assert p == w[..|p|] == base[..|p|];
  }

  /** A prefix of an earlier name and of the next one is a prefix of the name between. */
  lemma SharedByLast(e: Doc, p: CString, n: CString)
    requires Ascending(e) && e != [] && Less(LastName(e), n) && p in Prefixes(e) && p <= n
    ensures p <= LastName(e)
  {
    InPrefixes(e, p);
    hide Less, Prefixes;
    var prev := LastName(e);
    var g :| g in e && p <= g.name;
    if !(p <= prev) {
      var i :| 0 <= i < |e| && e[i] == g;
      LeavingIsPast(p, g.name, prev);
      BeyondPrefix(p, prev, n);
      LessTotal(prev, n);
    }
  }

  /** The builders in `fs` are those of the last name. */
  predicate Spelled(fs: Stack, e: Doc) {
    && Components(fs)
    && (if e == [] then fs == ROOT else Path(fs) + Last(LastName(e)) == LastName(e))
  }

  lemma {:induction false} LastPlain(name: CString)
    ensures DOT !in Last(name) && |Last(name)| <= |name|
  {
    var n := |name| - 1;
    if n >= 0 && name[n] != DOT {
      LastPlain(name[..n]);
    }
  }

  /** What an earlier name has in common with the next one lies along the builders that stay open. */
  lemma SharedIsOpen(fs: Stack, e: Doc, n: CString, m: Match, p: CString)
    requires Spelled(fs, e) && Ascending(e) && e != [] && Less(LastName(e), n)
    requires m == Matched(fs, 1, n) && m.Match? && p in Prefixes(e) && p <= n
    ensures |p| <= |Path(fs[..m.depth])|
  {
    hide Path, Prefixes, Less, Matched;
    var prev := LastName(e);
    LeftBehind(fs, prev, n, m);
    InPrefixes(e, p);
    SharedByLast(e, p, n);
    LastPlain(prev);
    WithinDir(Path(fs), Last(prev), p);
    PathAt(fs, p);
    var j :| 1 <= j < |fs| && p == PathTo(fs, j);
    if j < m.depth {
      PathPrefix(fs[..m.depth], j + 1);
      assert fs[..m.depth][..j + 1] == fs[..j + 1];
    } else {
      assert false;
    }
  }

  /** No prefix beyond the builders that stay open has occurred before. */
  lemma NewIsNew(fs: Stack, e: Doc, n: CString, m: Match)
    requires Spelled(fs, e) && Ascending(e) && (e != [] ==> Less(LastName(e), n))
    requires m == Matched(fs, 1, n) && m.Match?
    ensures Path(fs[..m.depth]) + m.rest == n && Prefixes(e) !! Beyond(Path(fs[..m.depth]), n)
  {
    hide Path, Prefixes, Beyond, Less, Matched;
    MatchedSplits(fs, 1, n);
    RootPath(fs);
    var base := Path(fs[..m.depth]);
    if e == [] {
      NoPrefixes();
    } else {
      forall p | p in Prefixes(e)
        ensures p !in Beyond(base, n)
      {
        if p <= n {
          SharedIsOpen(fs, e, n, m, p);
        }
        NotBeyond(base, n, p);
      }
    }
  }

  lemma NoPrefixes()
    ensures Prefixes([]) == {}
  {
  }

  lemma NotBeyond(base: CString, n: CString, p: CString)
    ensures |p| <= |base| || !(p <= n) ==> p !in Beyond(base, n)
  {
  }

  lemma WithinDir(dir: CString, last: CString, p: CString)
    requires DOT !in last && p <= dir + last && p != [] && p[|p| - 1] == DOT
    ensures p <= dir
  {
    var w := dir + last;
    PlainPart(dir, last, []);
    assert w + [] == w && w[|p| - 1] == p[|p| - 1];
    assert |p| <= |dir|;
    assert p == w[..|p|] == dir[..|p|];
  }

  /** The builders of a new name, once those it does not share have been closed. */
  lemma PlacedCost(fs: Stack, depth: nat, rest: CString, n: CString, v: Value)
    requires Components(fs) && 1 <= depth <= |fs| && Dotted(rest) && Path(fs[..depth]) + rest == n
    ensures var (gs, last) := Opened(PopTo(fs, depth), rest);
            && Components(gs) && Path(gs) + last == n && DOT !in last
            && Weight(Appended(gs, Field(last, v))) ==
               Weight(fs) + PrefixCosts(Beyond(Path(fs[..depth]), n)) + |last| + 2 + |EncValue(v)|
  {
    hide Path, Weight, Beyond, PrefixCosts, Opened, PopTo, Dotted, Components, Appended;
    PopToKeeps(fs, depth);
    PopToWeight(fs, depth);
    PopToComponents(fs, depth);
    OpenedCost(PopTo(fs, depth), rest, n);
    var (gs, last) := Opened(PopTo(fs, depth), rest);
    AppendWeight(gs, Field(last, v));
    FieldCost(Field(last, v));
  }

  /** Where the next item goes: into the builders that stay open, under prefixes not seen before. */
  lemma NextPlace(fs: Stack, e: Doc, f: Field)
    requires Spelled(fs, e) && Ascending(e + [f]) && Invertible(e + [f])
    ensures Components(fs) && Matched(fs, 1, f.name).Match?
    ensures var m := Matched(fs, 1, f.name);
            var base := Path(fs[..m.depth]);
            && base + m.rest == f.name && Dotted(m.rest) && Prefixes(e) !! Beyond(base, f.name)
  {
    LastItem(e, f);
    hide *;
    SpelledPath(fs, e);
    NeverOutOfRange(fs, LastName(e), f);
    SameName(f);
    NewIsNew(fs, e, f.name, Matched(fs, 1, f.name));
    RestDotted(fs, f.name);
  }

  /** `appendAs` of the next item adds its leaf and its new prefixes. */
  lemma AddedCost(fs: Stack, e: Doc, f: Field)
    requires Spelled(fs, e) && Ascending(e + [f]) && Invertible(e + [f])
    ensures var r := Added(fs, f);
            && r.Done? && Spelled(r.fs, e + [f])
            && Weight(r.fs) == Weight(fs) + (NestedCost(e + [f]) - NestedCost(e))
  {
    LastItem(e, f);
    hide *;
    NextPlace(fs, e, f);
    AddedPlain(fs, f);
    var m := Matched(fs, 1, f.name);
    PlacedItem(fs, e, f, m.depth, m.rest);
  }

  lemma PlacedItem(fs: Stack, e: Doc, f: Field, depth: nat, rest: CString)
    requires Spelled(fs, e) && Components(fs) && 1 <= depth <= |fs| && Dotted(rest)
    requires Path(fs[..depth]) + rest == f.name && Prefixes(e) !! Beyond(Path(fs[..depth]), f.name)
    ensures var (gs, last) := Opened(PopTo(fs, depth), rest);
            var r := Appended(gs, Field(last, f.value));
            Spelled(r, e + [f]) && Weight(r) == Weight(fs) + (NestedCost(e + [f]) - NestedCost(e))
  {
    hide *;
    var base := Path(fs[..depth]);
    PlacedCost(fs, depth, rest, f.name, f.value);
    var (gs, last) := Opened(PopTo(fs, depth), rest);
    SpelledNext(gs, last, e, f);
    OldPrefixes(fs, e, f, depth, base);
    NextCost(e, f, base);
  }

  lemma SameName(f: Field)
    requires !f.value.Object?
    ensures PreparedName(f) == f.name
  {
  }

  lemma RestDotted(fs: Stack, name: CString)
    requires Components(fs) && Dotted(name) && Matched(fs, 1, name).Match?
    ensures Dotted(Matched(fs, 1, name).rest)
  {
    MatchedSplits(fs, 1, name);
  }

  lemma LastItem(e: Doc, f: Field)
    requires Ascending(e + [f]) && Invertible(e + [f])
    ensures !f.value.Object? && Dotted(f.name) && Ascending(e) && (e != [] ==> Less(LastName(e), f.name))
  {
    var d := e + [f];
    AscendingPrefix(d, |e|);
    assert d[..|e|] == e;
    assert d[|e|] == f && (e != [] ==> d[|e| - 1] == e[|e| - 1]);
  }

  lemma SpelledPath(fs: Stack, e: Doc)
    requires Spelled(fs, e)
    ensures Components(fs) && Path(fs) <= LastName(e) && (e == [] ==> Path(fs) == [])
  {
    RootPath(ROOT);
    assert ROOT[..1] == ROOT;
  }

  lemma PopToComponents(fs: Stack, i: nat)
    requires Components(fs) && 1 <= i <= |fs|
    ensures Components(PopTo(fs, i))
  {
    PopToKeeps(fs, i);
  }

  lemma SpelledNext(gs: Stack, last: CString, e: Doc, f: Field)
    requires Components(gs) && Path(gs) + last == f.name && DOT !in last
    ensures Spelled(Appended(gs, Field(last, f.value)), e + [f]) && Last(f.name) == last
  {
    hide Path, Last, Components;
    PathEndsInDot(gs);
    LastOf(Path(gs), last);
    AppendedNames(gs, Field(last, f.value));
    AppendEmits(gs, Field(last, f.value));
  }

  /** The prefixes along the open path have occurred in the last name. */
  lemma OldPrefixes(fs: Stack, e: Doc, f: Field, depth: nat, base: CString)
    requires Spelled(fs, e) && 1 <= depth <= |fs| && base == Path(fs[..depth]) && base <= f.name
    ensures Prefixes(e + [f]) == Prefixes(e) + Beyond(base, f.name)
  {
    hide Path, Spelled, Beyond, Prefixes;
    PrefixesMore(e, f);
    BeyondAll(base, f.name);
    SpelledPath(fs, e);
    PathPrefix(fs, depth);
    assert Beyond([], base) <= Prefixes(e) by { OldBeyond(e, base); }
  }

  lemma OldBeyond(e: Doc, base: CString)
    requires base <= LastName(e)
    ensures Beyond([], base) <= Prefixes(e)
  {
    if e == [] {
      BeyondNone([], []);
    } else {
      hide Beyond, Prefixes;
      BeyondAll(base, LastName(e));
      PrefixesMore(e[..|e| - 1], e[|e| - 1]);
      assert e[..|e| - 1] + [e[|e| - 1]] == e;
    }
  }

  lemma NextCost(e: Doc, f: Field, base: CString)
    requires Prefixes(e) !! Beyond(base, f.name) && Prefixes(e + [f]) == Prefixes(e) + Beyond(base, f.name)
    ensures NestedCost(e + [f]) ==
            NestedCost(e) + |Last(f.name)| + 2 + |EncValue(f.value)| + PrefixCosts(Beyond(base, f.name))
  {
    hide Prefixes, Beyond, PrefixCosts, Last, EncValue;
    assert (e + [f])[..|e|] == e;
    CostsUnion(Prefixes(e), Beyond(base, f.name));
  }

  lemma FieldCost(f: Field)
    ensures |EncField(f)| == |f.name| + 2 + |EncValue(f.value)|
  {
    hide EncValue;
  }

  // ---- The whole conversion ----

  lemma {:induction false} BuildCost(items: Doc)
    requires Ascending(items) && Invertible(items)
    ensures var r := BuildAll(items);
            r.Done? && Spelled(r.fs, items) && Weight(r.fs) == NestedCost(items)
  {
    if items == [] {
      NoPrefixes();
      NoCosts();
      assert Weight(ROOT) == 5 by { EmptyBody(); }
    } else {
      var e, f := items[..|items| - 1], items[|items| - 1];
      assert items == e + [f];
      AscendingPrefix(items, |e|);
      assert Invertible(e);
      hide Invertible, Ascending, Spelled, Added, NestedCost, Weight;
      BuildCost(e);
      AddedCost(BuildAll(e).fs, e, f);
      BuildLast(items);
    }
  }

  /**
   The size of the nested form of an invertible document: five bytes for the whole, for each field
   its value, its last component and two bytes, and for each distinct dotted prefix its last
   component and seven bytes.
   */
  lemma NestedSize(d: Doc)
    requires Invertible(Items(d))
    ensures |EncDoc(NestedDoc(d))| == NestedCost(Items(d))
  {
    hide EncDoc, NestedCost, Weight, PopTo, Items, BuildAll, Spelled, Invertible, Ascending;
    ItemsSorted(d);
    BuildCost(Items(d));
    RootWeight(BuildAll(Items(d)).fs);
  }
}
