/** In nested form every dotted prefix of every name is a subobject, and so is every empty object. */
module DottedSubs {
  import opened BsonTypes
  import opened DottedNested
  import opened DottedPrefixes
  import opened DottedSize

  // ---- The document the open builders will be ----

  function Closed(fs: Stack, k: nat): (d: Doc)
    requires k < |fs|
    decreases |fs| - k
  {
    fs[k].fields + if k + 1 < |fs| then [Field(fs[k + 1].name, Object(Closed(fs, k + 1)))] else []
  }

  lemma {:induction false} ClosedPopped(fs: Stack, k: nat)
    requires |fs| > 1 && k < |fs| - 1
    ensures Closed(Popped(fs), k) == Closed(fs, k)
    decreases |fs| - k
  {
    PoppedParts(fs);
    hide Popped;
    if k + 2 < |fs| {
      ClosedPopped(fs, k + 1);
    } else {
      assert Closed(fs, k + 1) == fs[k + 1].fields && Closed(Popped(fs), k) == Popped(fs)[k].fields;
    }
  }

  lemma {:induction false} PoppedClosed(fs: Stack, i: nat)
    requires 1 <= i <= |fs|
    ensures Closed(PopTo(fs, i), 0) == Closed(fs, 0)
    decreases |fs|
  {
    if i < |fs| {
      hide Popped, Closed;
      PoppedNames(fs);
      ClosedPopped(fs, 0);
      PoppedClosed(Popped(fs), i);
    }
  }

  // ---- Documents that only grow ----

  predicate Covers(e: Doc, d: Doc)
    decreases d
  {
    |d| <= |e| && forall i :: 0 <= i < |d| ==> CoversField(e[i], d[i])
  }

  predicate CoversField(g: Field, f: Field)
    decreases f
  {
    g == f || (g.name == f.name && g.value.Object? && f.value.Object? && Covers(g.value.doc, f.value.doc))
  }

  lemma {:induction false} SubsStay(e: Doc, d: Doc, p: CString)
    requires Covers(e, d) && HasSub(d, p)
    ensures HasSub(e, p)
    decreases |p|
  {
    hide HasSub;
    var i := SubAt(d, p);
    assert CoversField(e[i], d[i]);
    if p != d[i].name + [DOT] {
      if e[i] != d[i] {
        SubsStay(e[i].value.doc, d[i].value.doc, p[|d[i].name| + 1..]);
      }
    }
    SubFrom(e, i, p);
  }

  lemma SubAt(d: Doc, p: CString) returns (i: nat)
    requires HasSub(d, p)
    ensures i < |d| && d[i].value.Object? && d[i].name + [DOT] <= p
    ensures p == d[i].name + [DOT] || HasSub(d[i].value.doc, p[|d[i].name| + 1..])
  {
    i :| 0 <= i < |d| && d[i].value.Object? && d[i].name + [DOT] <= p &&
      (p == d[i].name + [DOT] || HasSub(d[i].value.doc, p[|d[i].name| + 1..]));
  }

  lemma SubFrom(d: Doc, i: nat, p: CString)
    requires i < |d| && d[i].value.Object? && d[i].name + [DOT] <= p
    requires p == d[i].name + [DOT] || HasSub(d[i].value.doc, p[|d[i].name| + 1..])
    ensures HasSub(d, p)
  {
  }

  /** The builders of `fs` have got more fields, and builders on top. */
  predicate Grown(gs: Stack, fs: Stack) {
    && |fs| <= |gs| && (forall k :: 0 <= k < |fs| ==> gs[k].name == fs[k].name)
    && (forall k :: 0 <= k < |fs| - 1 ==> gs[k].fields == fs[k].fields)
    && fs[|fs| - 1].fields <= gs[|fs| - 1].fields
  }

  lemma {:induction false} GrownCovers(gs: Stack, fs: Stack, k: nat)
    requires Grown(gs, fs) && k < |fs|
    ensures Covers(Closed(gs, k), Closed(fs, k))
    decreases |fs| - k
  {
    hide Covers;
    if k + 1 < |fs| {
      GrownCovers(gs, fs, k + 1);
      CoversMore(fs[k].fields, fs[k + 1].name, Closed(gs, k + 1), Closed(fs, k + 1));
    } else {
      assert Closed(fs, k) == fs[k].fields;
      CoversPrefix(Closed(gs, k), fs[k].fields);
    }
  }

  lemma CoversPrefix(e: Doc, d: Doc)
    requires d <= e
    ensures Covers(e, d)
  {
  }

  lemma CoversMore(d: Doc, n: CString, x: Doc, y: Doc)
    requires Covers(x, y)
    ensures Covers(d + [Field(n, Object(x))], d + [Field(n, Object(y))])
  {
  }

  lemma OpenedGrown(fs: Stack, name: CString)
    ensures Grown(Opened(fs, name).0, fs)
    decreases |name|
  {
    var i := IndexOfDot(name);
    if 0 < i < |name| {
      OpenedGrown(fs + [Frame(name[..i], [])], name[i + 1..]);
    }
  }

  lemma AppendedGrown(gs: Stack, fs: Stack, f: Field)
    requires Grown(gs, fs)
    ensures Grown(Appended(gs, f), fs)
  {
  }

  // ---- Open builders are subobjects ----

  /** The path from builder `k` on to builder `j`. */
  function Rel(fs: Stack, k: nat, j: nat): CString
    requires k <= j < |fs|
    decreases j - k
  {
    if k == j then [] else fs[k + 1].name + [DOT] + Rel(fs, k + 1, j)
  }

  lemma {:induction false} RelPath(fs: Stack, k: nat, j: nat)
    requires k <= j < |fs|
    ensures PathTo(fs, k) + Rel(fs, k, j) == PathTo(fs, j)
    decreases j - k
  {
    if k < j {
      RelPath(fs, k + 1, j);
      PathNext(fs, k + 1);
    }
  }

  lemma {:induction false} OpenSub(fs: Stack, k: nat, j: nat)
    requires k < j < |fs|
    ensures HasSub(Closed(fs, k), Rel(fs, k, j))
    decreases j - k
  {
    hide HasSub;
    var d, n := Closed(fs, k), fs[k + 1].name;
    var last, p := |d| - 1, Rel(fs, k, j);
    assert d[last] == Field(n, Object(Closed(fs, k + 1)));
    if k + 1 < j {
      OpenSub(fs, k + 1, j);
      assert p[|n| + 1..] == Rel(fs, k + 1, j);
    } else {
      assert Rel(fs, k + 1, j) == [];
      assert p == n + [DOT] + [] == n + [DOT];
    }
    SubFrom(d, last, p);
  }

  lemma OpenPathSub(fs: Stack, p: CString)
    requires Components(fs) && p <= Path(fs) && p != [] && p[|p| - 1] == DOT
    ensures HasSub(Closed(fs, 0), p)
  {
    hide HasSub, Closed, Path;
    PathAt(fs, p);
    var j :| 1 <= j < |fs| && p == PathTo(fs, j);
    OpenSub(fs, 0, j);
    RelPath(fs, 0, j);
    RootPath(fs);
    assert Rel(fs, 0, j) == p;
  }

  /** Opening the components of a name opens one for each prefix without an empty component. */
  lemma {:induction false} OpenedCovers(fs: Stack, rest: CString, q: CString)
    requires Components(fs) && q <= rest && (q == [] || q[|q| - 1] == DOT) && Dotted(q)
    ensures Path(fs) + q <= Path(Opened(fs, rest).0)
    decreases |rest|
  {
    hide *;
    OpenedPath(fs, rest);
    if q != [] {
      var c, r, more := FirstDot(q, rest);
      var hs := fs + [Frame(c, [])];
      OpenedNext(fs, c, r);
      ComponentsMore(fs, c);
      OpenedCovers(hs, r, more);
      PathOpen(fs, c);
      assert Path(fs) + q == Path(hs) + more;
    } else {
      assert Path(fs) + q == Path(fs);
    }
  }

  lemma OpenedNext(fs: Stack, c: CString, r: CString)
    requires c != [] && DOT !in c
    ensures Opened(fs, c + [DOT] + r) == Opened(fs + [Frame(c, [])], r)
  {
    IndexOfDotAt(c, r);
    var n := c + [DOT] + r;
    assert n[..|c|] == c && n[|c| + 1..] == r;
  }

  lemma ComponentsMore(fs: Stack, c: CString)
    requires Components(fs) && c != [] && DOT !in c
    ensures Components(fs + [Frame(c, [])])
  {
  }

  lemma PathOpen(fs: Stack, c: CString)
    ensures Path(fs + [Frame(c, [])]) == Path(fs) + c + [DOT]
  {
    OpenEmits(fs, c);
  }

  lemma {:induction false} OpenedPath(fs: Stack, rest: CString)
    ensures Path(fs) <= Path(Opened(fs, rest).0)
    decreases |rest|
  {
    hide Path;
    var i := IndexOfDot(rest);
    if 0 < i < |rest| {
      PathOpen(fs, rest[..i]);
      OpenedPath(fs + [Frame(rest[..i], [])], rest[i + 1..]);
    }
  }

  lemma HasDot(q: CString)
    requires q != [] && q[|q| - 1] == DOT
    ensures IndexOfDot(q) < |q|
  {
    assert q[..|q|] == q && DOT in q;
  }

  /** The first component of a prefix, and what follows it in the prefix and in the name. */
  lemma FirstDot(q: CString, rest: CString) returns (c: CString, r: CString, more: CString)
    requires q <= rest && q != [] && q[|q| - 1] == DOT && Dotted(q)
    ensures c != [] && DOT !in c && q == c + [DOT] + more && rest == c + [DOT] + r && more <= r
    ensures Dotted(more) && (more == [] || more[|more| - 1] == DOT) && |r| < |rest|
  {
    var i := IndexOfDot(q);
    HasDot(q);
    c, r, more := q[..i], rest[i + 1..], q[i + 1..];
    SplitAt(q, rest, i);
  }

  lemma SplitAt(q: CString, rest: CString, i: nat)
    requires i < |q| && q <= rest && q[i] == DOT && q[|q| - 1] == DOT
    ensures q == q[..i] + [DOT] + q[i + 1..] && rest == q[..i] + [DOT] + rest[i + 1..] && q[i + 1..] <= rest[i + 1..]
    ensures q[i + 1..] == [] || q[i + 1..][|q| - i - 2] == DOT
  {
    assert rest == q + rest[|q|..];
    assert rest[i + 1..] == q[i + 1..] + rest[|q|..];
  }

  // ---- dotted2nested ----

  lemma AddedSubs(fs: Stack, prev: CString, f: Field)
    requires Components(fs) && Path(fs) <= prev + [DOT] && (Path(fs) == [] || Less(prev, f.name))
    ensures var r := Added(fs, f);
            && r.Done? && Components(r.fs)
            && (forall p :: HasSub(Closed(fs, 0), p) ==> HasSub(Closed(r.fs, 0), p))
            && (forall p :: IsPrefix(p, PreparedName(f)) ==> HasSub(Closed(r.fs, 0), p))
  {
    hide *;
    NeverOutOfRange(fs, prev, f);
    var m := Matched(fs, 1, PreparedName(f));
    MatchedSplits(fs, 1, PreparedName(f));
    RootPath(fs);
    PlacedSubs(fs, f, m.depth, m.rest);
    AddedDone(fs, f);
  }

  lemma AddedDone(fs: Stack, f: Field)
    requires Matched(fs, 1, PreparedName(f)).Match?
    ensures var m := Matched(fs, 1, PreparedName(f));
            Added(fs, f) == Done(Placed(fs, f, m.depth, m.rest))
  {
    hide Matched, Opened, PopTo, Appended;
  }

  function Placed(fs: Stack, f: Field, depth: nat, rest: CString): Stack
    requires 1 <= depth <= |fs|
  {
    var (gs, last) := Opened(PopTo(fs, depth), rest);
    if f.value == Object([]) then gs else Appended(gs, Field(last, f.value))
  }

  /** A dotted prefix, with its final dot, of which no component is empty. */
  predicate IsPrefix(p: CString, name: CString) {
    p <= name && p != [] && p[|p| - 1] == DOT && Dotted(p)
  }

  lemma PlacedSubs(fs: Stack, f: Field, depth: nat, rest: CString)
    requires Components(fs) && 1 <= depth <= |fs| && Path(fs[..depth]) + rest == PreparedName(f)
    ensures var r := Placed(fs, f, depth, rest);
            && Components(r)
            && (forall p :: HasSub(Closed(fs, 0), p) ==> HasSub(Closed(r, 0), p))
            && (forall p :: IsPrefix(p, PreparedName(f)) ==> HasSub(Closed(r, 0), p))
  {
    var hs, r := PopTo(fs, depth), Placed(fs, f, depth, rest);
    PopToComponents(fs, depth);
    PlacedGrown(fs, f, depth, rest);
    PlacedPath(fs, f, depth, rest);
    PoppedClosed(fs, depth);
    PopToKeeps(fs, depth);
    GrownCovers(r, hs, 0);
    hide *;
    forall p | HasSub(Closed(fs, 0), p)
      ensures HasSub(Closed(r, 0), p)
    {
      SubsStay(Closed(r, 0), Closed(hs, 0), p);
    }
    forall p | IsPrefix(p, PreparedName(f))
      ensures HasSub(Closed(r, 0), p)
    {
      PrefixOpen(hs, rest, Path(r), p, PreparedName(f));
      PrefixEnds(p, PreparedName(f));
      OpenPathSub(r, p);
    }
  }

  lemma PrefixEnds(p: CString, name: CString)
    requires IsPrefix(p, name)
    ensures p <= name && p != [] && p[|p| - 1] == DOT && Dotted(p)
  {
  }

  lemma PlacedGrown(fs: Stack, f: Field, depth: nat, rest: CString)
    requires Components(fs) && 1 <= depth <= |fs|
    ensures Grown(Placed(fs, f, depth, rest), PopTo(fs, depth))
  {
    hide Opened, PopTo, Appended, Grown;
    var hs := PopTo(fs, depth);
    OpenedGrown(hs, rest);
    var (gs, last) := Opened(hs, rest);
    AppendedGrown(gs, hs, Field(last, f.value));
  }

  lemma PlacedPath(fs: Stack, f: Field, depth: nat, rest: CString)
    requires Components(fs) && 1 <= depth <= |fs|
    ensures var r := Placed(fs, f, depth, rest);
            Components(r) && Path(r) == Path(Opened(PopTo(fs, depth), rest).0)
  {
    hide Opened, PopTo, Appended, Path, Emitted, Dotted, Components;
    PopToComponents(fs, depth);
    OpenedKeeps(PopTo(fs, depth), rest);
    var (gs, last) := Opened(PopTo(fs, depth), rest);
    AppendEmits(gs, Field(last, f.value));
    AppendedNames(gs, Field(last, f.value));
  }

  /** A prefix of the name lies along the builders that stay open and those opened. */
  lemma PrefixOpen(hs: Stack, rest: CString, path: CString, p: CString, name: CString)
    requires Components(hs) && Path(hs) + rest == name && IsPrefix(p, name) && path == Path(Opened(hs, rest).0)
    ensures p <= path
  {
    hide Path, Opened;
    PrefixEnds(p, name);
    OpenedPath(hs, rest);
    PathEndsInDot(hs);
    if |p| <= |Path(hs)| {
      ShortPrefix(Path(hs), rest, p, path);
    } else {
      var q := LongPrefix(Path(hs), rest, p);
      RestOfDotted(Path(hs), q);
      OpenedCovers(hs, rest, q);
    }
  }

  lemma ShortPrefix(base: CString, rest: CString, p: CString, path: CString)
    requires p <= base + rest && |p| <= |base| && base <= path
    ensures p <= path
  {
    assert p == (base + rest)[..|p|] == base[..|p|] == path[..|p|];
  }

  lemma LongPrefix(base: CString, rest: CString, p: CString) returns (q: CString)
    requires p <= base + rest && |p| > |base| && p[|p| - 1] == DOT
    ensures p == base + q && q <= rest && q != [] && q[|q| - 1] == DOT
  {
    q := p[|base|..];
    var name := base + rest;
    assert p == name[..|p|] && base == name[..|base|] && rest == name[|base|..];
    assert q == rest[..|q|];
  }

  lemma {:induction false} RestOfDotted(base: CString, q: CString)
    requires Dotted(base + q) && (base == [] || base[|base| - 1] == DOT)
    ensures Dotted(q)
    decreases |base|
  {
    if base == [] {
      assert base + q == q;
    } else {
      var i := IndexOfDot(base);
      HasDot(base);
      var c, more := base[..i], base[i + 1..];
      assert base == c + [DOT] + more && base + q == c + [DOT] + (more + q);
      IndexOfDotAt(c, more + q);
      assert (base + q)[i + 1..] == more + q;
      RestOfDotted(more, q);
    }
  }

  /** What a document's names make subobjects. */
  ghost predicate AllOpened(items: Doc, d: Doc) {
    forall f, p :: f in items && IsPrefix(p, PreparedName(f)) ==> HasSub(d, p)
  }

  lemma {:induction false} BuildSubs(items: Doc)
    requires Ascending(items)
    ensures BuildAll(items).Done? && AllOpened(items, Closed(BuildAll(items).fs, 0))
  {
    if items != [] {
      var e, f := items[..|items| - 1], items[|items| - 1];
      assert items == e + [f] && (e != [] ==> Less(LastName(e), f.name));
      AscendingPrefix(items, |e|);
      hide Added, Less, HasSub, Closed, IsPrefix, Path, Components, PreparedName;
      BuildSubs(e);
      BuildNeverThrows(e);
      BuildLast(items);
      AddedSubs(BuildAll(e).fs, LastName(e), f);
    }
  }

  /**
   For every document: a dotted prefix without empty components of any of its names leads to a
   subobject of the nested form, and so does the whole name of an empty object.
   */
  lemma PrefixesAreSubs(d: Doc, f: Field, p: CString)
    requires f in Items(d) && IsPrefix(p, if f.value == Object([]) then f.name + [DOT] else f.name)
    ensures HasSub(NestedDoc(d), p)
  {
    hide HasSub, BuildAll, Items, Ascending, Closed, Dotted;
    ItemsSorted(d);
    BuildSubs(Items(d));
    var fs := BuildAll(Items(d)).fs;
    PoppedClosed(fs, 1);
    RootClosed(PopTo(fs, 1));
    assert IsPrefix(p, PreparedName(f)) by {
      if f.value == Object([]) {
        assert f.name + [DOT] <= PreparedName(f);
      }
    }
  }

  lemma RootClosed(fs: Stack)
    requires |fs| == 1
    ensures Closed(fs, 0) == fs[0].fields
  {
  }
}
