/** In nested form every dotted prefix is one subobject: it is opened once, and never again once closed. */
module DottedPrefixes {
  import opened BsonTypes
  import opened DottedNested

  /** At every level the object-typed fields have different names. */
  predicate Once(d: Doc)
    decreases d
  {
    && (forall i, j :: 0 <= i < j < |d| && d[i].value.Object? && d[j].value.Object? ==> d[i].name != d[j].name)
    && (forall i :: 0 <= i < |d| && d[i].value.Object? ==> Once(d[i].value.doc))
  }

  predicate NotAmong(d: Doc, name: CString) {
    forall i :: 0 <= i < |d| && d[i].value.Object? ==> d[i].name != name
  }

  /** No two subobjects of one builder share a name, the one still open included. */
  predicate StackOnce(fs: Stack) {
    && (forall k :: 0 <= k < |fs| ==> Once(fs[k].fields))
    && (forall k :: 0 <= k < |fs| - 1 ==> NotAmong(fs[k].fields, fs[k + 1].name))
  }

  /** `n` comes after all names that start with `q`. */
  predicate Past(q: CString, n: CString) {
    Less(q, n) && !(q <= n)
  }

  predicate ClosedPast(d: Doc, path: CString, n: CString) {
    forall i :: 0 <= i < |d| && d[i].value.Object? ==> Past(path + d[i].name + [DOT], n)
  }

  /** The dotted path of the builder at position `k`. */
  function PathTo(fs: Stack, k: nat): CString
    requires k < |fs|
  {
    Path(fs[..k + 1])
  }

  /** Every subobject already closed has a prefix that no name from `n` on will have. */
  predicate StackPast(fs: Stack, n: CString) {
    forall k :: 0 <= k < |fs| ==> ClosedPast(fs[k].fields, PathTo(fs, k), n)
  }

  // ---- Order and prefixes ----

  lemma {:induction false} BeyondPrefix(q: CString, p: CString, n: CString)
    requires Past(q, p) && q <= n
    ensures Less(n, p)
  {
    if q != [] && q[0] == p[0] {
      assert q == [q[0]] + q[1..] && p == [p[0]] + p[1..];
      assert q[1..] <= p[1..] ==> q <= p;
      BeyondPrefix(q[1..], p[1..], n[1..]);
    }
  }

  lemma PastStays(q: CString, p: CString, n: CString)
    requires Past(q, p) && Less(p, n)
    ensures Past(q, n)
  {
    LessTrans(q, p, n);
    if q <= n {
      BeyondPrefix(q, p, n);
      LessTotal(n, p);
    }
  }

  lemma LeavingIsPast(q: CString, p: CString, n: CString)
    requires q <= p && Less(p, n) && !(q <= n)
    ensures Past(q, n)
  {
    LessTotal(q, n);
    PrefixNotGreater(q, p);
    LessTotal(q, p);
    if Less(n, q) {
      if Less(q, p) {
        LessTrans(n, q, p);
      }
      LessTotal(n, p);
    }
  }

  // ---- What each move on the stack keeps ----

  lemma Advance(fs: Stack, prev: CString, n: CString)
    requires StackPast(fs, prev) && Less(prev, n)
    ensures StackPast(fs, n)
  {
    hide Past, Path;
    forall k | 0 <= k < |fs|
      ensures ClosedPast(fs[k].fields, PathTo(fs, k), n)
    {
      var d, path := fs[k].fields, PathTo(fs, k);
      assert ClosedPast(d, path, prev);
      forall i | 0 <= i < |d| && d[i].value.Object?
        ensures Past(path + d[i].name + [DOT], n)
      {
        PastStays(path + d[i].name + [DOT], prev, n);
      }
    }
  }

  lemma OnceMore(d: Doc, f: Field)
    requires Once(d) && (f.value.Object? ==> Once(f.value.doc) && NotAmong(d, f.name))
    ensures Once(d + [f])
  {
  }

  lemma PopOnce(fs: Stack)
    requires |fs| > 1 && StackOnce(fs)
    ensures StackOnce(Popped(fs))
  {
    hide Once, NotAmong;
    var n := |fs| - 1;
    var r := Popped(fs);
    assert NotAmong(fs[n - 1].fields, fs[n].name);
    OnceMore(fs[n - 1].fields, Field(fs[n].name, Object(fs[n].fields)));
    forall k | 0 <= k < |r| - 1
      ensures NotAmong(r[k].fields, r[k + 1].name)
    {
      assert r[k].fields == fs[k].fields && r[k + 1].name == fs[k + 1].name;
    }
  }

  lemma {:induction false} PopToOnce(fs: Stack, i: nat)
    requires 1 <= i <= |fs| && StackOnce(fs)
    ensures StackOnce(PopTo(fs, i))
    decreases |fs|
  {
    hide StackOnce, Popped;
    if i < |fs| {
      PopOnce(fs);
      PoppedNames(fs);
      PopToOnce(Popped(fs), i);
    }
  }

  lemma ClosedPastMore(d: Doc, path: CString, n: CString, f: Field)
    requires ClosedPast(d, path, n) && (f.value.Object? ==> Past(path + f.name + [DOT], n))
    ensures ClosedPast(d + [f], path, n)
  {
    hide Past;
  }

  lemma PopPast(fs: Stack, n: CString)
    requires |fs| > 1 && StackPast(fs, n) && Past(Path(fs), n)
    ensures StackPast(Popped(fs), n)
  {
    hide Past, Path, PathTo, ClosedPast, Popped;
    var top := |fs| - 1;
    var r, f := Popped(fs), Field(fs[top].name, Object(fs[top].fields));
    PoppedParts(fs);
    assert ClosedPast(fs[top - 1].fields, PathTo(fs, top - 1), n);
    TopPath(fs);
    ClosedPastMore(fs[top - 1].fields, PathTo(fs, top - 1), n, f);
    forall k | 0 <= k < |r|
      ensures ClosedPast(r[k].fields, PathTo(r, k), n)
    {
      SamePathTo(r, fs, k);
    }
  }

  lemma PoppedParts(fs: Stack)
    requires |fs| > 1
    ensures var r, top := Popped(fs), |fs| - 1;
            && |r| == top && (forall k :: 0 <= k < top - 1 ==> r[k] == fs[k])
            && (forall k :: 0 <= k < top ==> r[k].name == fs[k].name)
            && r[top - 1].fields == fs[top - 1].fields + [Field(fs[top].name, Object(fs[top].fields))]
  {
  }

  lemma TopPath(fs: Stack)
    requires |fs| > 1
    ensures Path(fs) == PathTo(fs, |fs| - 2) + fs[|fs| - 1].name + [DOT]
  {
    assert fs[..|fs| - 2 + 1] == fs[..|fs| - 1];
  }

  lemma WholePath(fs: Stack)
    ensures PathTo(fs, |fs| - 1) == Path(fs)
  {
    assert fs[..|fs|] == fs;
  }

  lemma SamePathTo(r: Stack, fs: Stack, j: nat)
    requires j < |r| && j < |fs| && forall k :: 0 <= k <= j ==> r[k].name == fs[k].name
    ensures PathTo(r, j) == PathTo(fs, j)
  {
    PathNames(r[..j + 1], fs[..j + 1]);
  }

  lemma {:induction false} PopToPast(fs: Stack, i: nat, n: CString)
    requires 1 <= i <= |fs| && StackPast(fs, n)
    requires forall j :: i <= j < |fs| ==> Past(PathTo(fs, j), n)
    ensures StackPast(PopTo(fs, i), n)
    decreases |fs|
  {
    if i < |fs| {
      hide StackPast, Past, Path, Popped, PathTo;
      assert Past(PathTo(fs, |fs| - 1), n);
      WholePath(fs);
      PopPast(fs, n);
      PoppedNames(fs);
      var r := Popped(fs);
      forall j | i <= j < |r|
        ensures Past(PathTo(r, j), n)
      {
        assert Past(PathTo(fs, j), n);
        SamePathTo(r, fs, j);
      }
      PopToPast(r, i, n);
    }
  }

  /** The first builder that does not match stands for a prefix the name does not have. */
  lemma {:induction false} MismatchAt(fs: Stack, i: nat, name: CString)
    requires 1 <= i <= |fs|
    ensures var m := Matched(fs, i, name);
            m.Match? && m.depth < |fs| ==> !(fs[m.depth].name + [DOT] <= m.rest)
    decreases |fs| - i
  {
    if i < |fs| {
      var c := fs[i].name;
      DotPrefix(c, name);
      if c <= name && (|name| == |c| || name[|c|] == DOT) {
        if |name| != |c| {
          MismatchAt(fs, i + 1, name[|c| + 1..]);
        }
      }
    }
  }

  lemma DotPrefix(c: CString, name: CString)
    ensures c + [DOT] <= name ==> |c| < |name| && c <= name && name[|c|] == DOT
  {
    if c + [DOT] <= name {
      assert name[..|c| + 1] == c + [DOT];
    }
  }

  lemma LeftBehind(fs: Stack, prev: CString, n: CString, m: Match)
    requires Components(fs) && Path(fs) <= prev && (|fs| > 1 ==> Less(prev, n))
    requires m == Matched(fs, 1, n) && m.Match?
    ensures forall j :: m.depth <= j < |fs| ==> Past(PathTo(fs, j), n)
  {
    hide Path, Past, Matched, Components;
    MatchedSplits(fs, 1, n);
    MismatchAt(fs, 1, n);
    RootPath(fs);
    if m.depth < |fs| {
      assert Path(fs[..m.depth]) + m.rest == n;
      forall j | m.depth <= j < |fs|
        ensures Past(PathTo(fs, j), n)
      {
        PrefixLost(fs, m.depth, j, m.rest);
        PathPrefix(fs, j + 1);
        LeavingIsPast(PathTo(fs, j), prev, n);
      }
    }
  }

  lemma PrefixLost(fs: Stack, i: nat, j: nat, rest: CString)
    requires 1 <= i <= j < |fs| && !(fs[i].name + [DOT] <= rest)
    ensures !(PathTo(fs, j) <= Path(fs[..i]) + rest)
  {
    hide Path;
    PathPrefix(fs[..j + 1], i + 1);
    assert fs[..j + 1][..i + 1] == fs[..i + 1];
    PathNext(fs, i);
    var n := Path(fs[..i]) + rest;
    if PathTo(fs, j) <= n {
      assert Path(fs[..i]) + (fs[i].name + [DOT]) == Path(fs[..i + 1]) <= n;
      PrefixCancelled(Path(fs[..i]), fs[i].name + [DOT], rest);
    }
  }

  lemma PrefixCancelled(a: CString, b: CString, c: CString)
    requires a + b <= a + c
    ensures b <= c
  {
    assert b == (a + b)[|a|..] && c == (a + c)[|a|..];
    assert (a + c)[..|a + b|][|a|..] == c[..|b|];
  }

  /** A builder opened for `n` has a name that none closed before in its parent has. */
  lemma {:induction false} OpenedOnce(fs: Stack, name: CString, n: CString)
    requires StackOnce(fs) && StackPast(fs, n) && Path(fs) + name == n
    ensures StackOnce(Opened(fs, name).0) && StackPast(Opened(fs, name).0, n)
    decreases |name|
  {
    hide Path, Past, Once, NotAmong, ClosedPast;
    var i := IndexOfDot(name);
    if 0 < i < |name| {
      var c, rest := name[..i], name[i + 1..];
      var hs := fs + [Frame(c, [])];
      OpenEmits(fs, c);
      assert name == c + [DOT] + rest;
      assert Path(hs) + rest == n;
      assert fs[..|fs| - 1 + 1] == fs;
      assert ClosedPast(fs[|fs| - 1].fields, Path(fs), n);
      FreshName(fs[|fs| - 1].fields, Path(fs), c, rest, n);
      NothingClosed(Path(hs), n);
      assert hs[..|hs|] == hs;
      forall k | 0 <= k < |hs|
        ensures ClosedPast(hs[k].fields, PathTo(hs, k), n)
      {
        if k < |fs| {
          assert hs[..k + 1] == fs[..k + 1];
        }
      }
      OpenedOnce(hs, rest, n);
    }
  }

  lemma NothingClosed(path: CString, n: CString)
    ensures Once([]) && ClosedPast([], path, n)
  {
  }

  lemma FreshName(d: Doc, path: CString, c: CString, rest: CString, n: CString)
    requires ClosedPast(d, path, n) && path + c + [DOT] + rest == n
    ensures NotAmong(d, c)
  {
    hide Path;
    assert path + c + [DOT] <= n;
  }

  lemma PlainAppended(fs: Stack, f: Field, n: CString)
    requires StackOnce(fs) && StackPast(fs, n) && !f.value.Object?
    ensures StackOnce(Appended(fs, f)) && StackPast(Appended(fs, f), n)
  {
    hide Path, Past, Once, NotAmong, ClosedPast;
    var r, top := Appended(fs, f), |fs| - 1;
    OnceMore(fs[top].fields, f);
    ClosedPastMore(fs[top].fields, Path(fs[..top + 1]), n, f);
    forall k | 0 <= k < |r|
      ensures ClosedPast(r[k].fields, PathTo(r, k), n)
    {
      PathNames(r[..k + 1], fs[..k + 1]);
    }
  }

  // ---- dotted2nested ----

  lemma AddedOnce(fs: Stack, prev: CString, f: Field)
    requires Components(fs) && Path(fs) <= prev && !f.value.Object?
    requires StackOnce(fs) && (fs == ROOT || (StackPast(fs, prev) && Less(prev, f.name)))
    ensures var r := Added(fs, f);
            r.Done? && StackOnce(r.fs) && StackPast(r.fs, f.name) && Path(r.fs) <= f.name
  {
    hide Path, StackOnce, StackPast, Opened, Matched, PopTo, Appended, Components, Less;
    var n := f.name;
    if fs == ROOT {
      RootPath(ROOT);
      assert ROOT[..1] == ROOT;
      RootPast(n);
    } else {
      Advance(fs, prev, n);
    }
    NeverOutOfRange(fs, prev, f);
    LeftBehind(fs, prev, n, Matched(fs, 1, n));
    PlacedOnce(fs, f);
  }

  predicate Tidy(fs: Stack, n: CString) {
    Components(fs) && StackOnce(fs) && StackPast(fs, n)
  }

  /** `appendAs` once the builders it leaves behind are known to be past. */
  lemma PlacedOnce(fs: Stack, f: Field)
    requires Tidy(fs, f.name) && !f.value.Object? && Matched(fs, 1, f.name).Match?
    requires forall j :: Matched(fs, 1, f.name).depth <= j < |fs| ==> Past(PathTo(fs, j), f.name)
    ensures var r := Added(fs, f);
            r.Done? && Tidy(r.fs, f.name) && Path(r.fs) <= f.name
  {
    PoppedTidy(fs, f.name);
    AddedPlain(fs, f);
    hide Path, Tidy, Opened, Matched, PopTo, Appended, PathTo, Past, Added;
    var m := Matched(fs, 1, f.name);
    OpenedTidy(PopTo(fs, m.depth), m.rest, f.name);
    var (gs, last) := Opened(PopTo(fs, m.depth), m.rest);
    AppendedTidy(gs, Field(last, f.value), f.name);
  }

  lemma AddedPlain(fs: Stack, f: Field)
    requires !f.value.Object? && Matched(fs, 1, f.name).Match?
    ensures var m := Matched(fs, 1, f.name);
            var (gs, last) := Opened(PopTo(fs, m.depth), m.rest);
            Added(fs, f) == Done(Appended(gs, Field(last, f.value)))
  {
    hide Opened, Matched, PopTo, Appended;
  }

  lemma PoppedTidy(fs: Stack, n: CString)
    requires Tidy(fs, n) && Matched(fs, 1, n).Match?
    requires forall j :: Matched(fs, 1, n).depth <= j < |fs| ==> Past(PathTo(fs, j), n)
    ensures var m := Matched(fs, 1, n); Tidy(PopTo(fs, m.depth), n) && Path(PopTo(fs, m.depth)) + m.rest == n
  {
    hide Path, StackOnce, StackPast, Matched, PopTo, PathTo, Past, Emitted, Dotted;
    var m := Matched(fs, 1, n);
    PopToOnce(fs, m.depth);
    PopToPast(fs, m.depth, n);
    PopToKeeps(fs, m.depth);
    MatchedSplits(fs, 1, n);
    RootPath(fs);
  }

  lemma OpenedTidy(hs: Stack, rest: CString, n: CString)
    requires Tidy(hs, n) && Path(hs) + rest == n
    ensures Tidy(Opened(hs, rest).0, n) && Path(Opened(hs, rest).0) <= n
  {
    hide Path, StackOnce, StackPast, Components, Opened, Dotted, Emitted;
    OpenedOnce(hs, rest, n);
    OpenedKeeps(hs, rest);
  }

  lemma AppendedTidy(gs: Stack, f: Field, n: CString)
    requires Tidy(gs, n) && !f.value.Object?
    ensures Tidy(Appended(gs, f), n) && Path(Appended(gs, f)) == Path(gs)
  {
    hide Path, StackOnce, StackPast, Appended, Emitted, Components;
    PlainAppended(gs, f, n);
    AppendEmits(gs, f);
    AppendedNames(gs, f);
  }

  lemma RootPast(n: CString)
    ensures StackPast(ROOT, n) && StackOnce(ROOT)
  {
  }

  lemma {:induction false} BuildOnce(items: Doc)
    requires Ascending(items) && NoObjects(items)
    ensures var r := BuildAll(items);
            r.Done? && StackOnce(r.fs) && (items != [] ==> StackPast(r.fs, LastName(items)))
                && Path(r.fs) <= LastName(items)
  {
    if items == [] {
      RootPast([]);
      RootPath(ROOT);
      assert ROOT[..1] == ROOT;
    } else {
      hide Path, StackOnce, StackPast, Components, Added;
      var e, f := items[..|items| - 1], items[|items| - 1];
      AscendingPrefix(items, |e|);
      assert e != [] ==> Less(LastName(e), f.name);
      BuildOnce(e);
      BuildNeverThrows(e);
      assert e == [] ==> BuildAll(e).fs == ROOT;
      AddedOnce(BuildAll(e).fs, LastName(e), f);
      BuildLast(items);
    }
  }

  // ---- Every prefix is a subobject ----

  /** No name has a dot any more. */
  predicate Clean(d: Doc)
    decreases d
  {
    && (forall i :: 0 <= i < |d| ==> DOT !in d[i].name)
    && (forall i :: 0 <= i < |d| && d[i].value.Object? ==> Clean(d[i].value.doc))
  }

  predicate CleanStack(fs: Stack) {
    && (forall k :: 0 <= k < |fs| ==> Clean(fs[k].fields))
    && (forall k :: 1 <= k < |fs| ==> DOT !in fs[k].name)
  }

  lemma CleanMore(d: Doc, f: Field)
    requires Clean(d) && DOT !in f.name && (f.value.Object? ==> Clean(f.value.doc))
    ensures Clean(d + [f])
  {
  }

  lemma {:induction false} PopToClean(fs: Stack, i: nat)
    requires 1 <= i <= |fs| && CleanStack(fs)
    ensures CleanStack(PopTo(fs, i))
    decreases |fs|
  {
    hide Clean;
    if i < |fs| {
      var n := |fs| - 1;
      CleanMore(fs[n - 1].fields, Field(fs[n].name, Object(fs[n].fields)));
      PoppedParts(fs);
      PopToClean(Popped(fs), i);
    }
  }

  lemma {:induction false} OpenedClean(fs: Stack, name: CString)
    requires CleanStack(fs) && Dotted(name)
    ensures CleanStack(Opened(fs, name).0) && DOT !in Opened(fs, name).1
    decreases |name|
  {
    var i := IndexOfDot(name);
    if 0 < i < |name| {
      assert Clean([]);
      hide Clean;
      OpenedClean(fs + [Frame(name[..i], [])], name[i + 1..]);
    } else {
      assert name[..i] == name;
    }
  }

  lemma AddedClean(fs: Stack, f: Field)
    requires Components(fs) && CleanStack(fs) && Dotted(f.name) && !f.value.Object?
    ensures Added(fs, f).Done? ==> CleanStack(Added(fs, f).fs)
  {
    hide Clean, Opened, Matched, PopTo, Dotted, Path;
    var m := Matched(fs, 1, f.name);
    if m.Match? {
      MatchedSplits(fs, 1, f.name);
      PopToClean(fs, m.depth);
      OpenedClean(PopTo(fs, m.depth), m.rest);
      var (gs, last) := Opened(PopTo(fs, m.depth), m.rest);
      CleanMore(gs[|gs| - 1].fields, Field(last, f.value));
    }
  }

  lemma {:induction false} BuildClean(items: Doc)
    requires Ascending(items) && Invertible(items)
    ensures BuildAll(items).Done? && CleanStack(BuildAll(items).fs)
  {
    if items == [] {
      assert Clean([]);
    } else {
      var e, f := items[..|items| - 1], items[|items| - 1];
      assert Dotted(f.name) && !f.value.Object?;
      AscendingPrefix(items, |e|);
      hide CleanStack, Dotted, Added, Components, Path;
      BuildClean(e);
      BuildNeverThrows(e);
      BuildNeverThrows(items);
      AddedClean(BuildAll(e).fs, f);
      BuildLast(items);
    }
  }

  /** The dotted path `p`, each component with its dot, leads to a subobject. */
  predicate HasSub(d: Doc, p: CString)
    decreases |p|
  {
    exists i :: 0 <= i < |d| && d[i].value.Object? && d[i].name + [DOT] <= p &&
      (p == d[i].name + [DOT] || HasSub(d[i].value.doc, p[|d[i].name| + 1..]))
  }

  /** Where names have no dots, a leaf's dotted name spells out the subobjects it lies in. */
  lemma {:induction false} LeafInSubs(d: Doc, base: CString, g: Field, p: CString)
    requires Clean(d) && g in Leaves(d, base) && p != [] && p[|p| - 1] == DOT && base + p <= g.name
    ensures HasSub(d, p)
    decreases d, |d|
  {
    var f := d[0];
    CleanParts(d);
    LeafCases(d, base, g);
    hide Leaves, Clean, HasSub;
    if g in Leaves(d[1..], base) {
      LeafInSubs(d[1..], base, g, p);
      SubsOfRest(d, p);
    } else if f.value.Object? {
      var inner := base + f.name + [DOT];
      LeafUnder(f.value.doc, inner, g);
      HeadOfPrefix(base, f.name, p, g.name);
      if p != f.name + [DOT] {
        RestOfPath(base, f.name, p);
        LeafInSubs(f.value.doc, inner, g, p[|f.name| + 1..]);
      }
      SubHere(d, p);
    } else {
      NoDotPrefix(base, f.name, p);
    }
  }

  lemma RestOfPath(base: CString, name: CString, p: CString)
    requires name + [DOT] <= p != name + [DOT] && p[|p| - 1] == DOT
    ensures var q := p[|name| + 1..];
            q != [] && |q| < |p| && q[|q| - 1] == DOT && base + name + [DOT] + q == base + p
  {
    var q := p[|name| + 1..];
    assert p == name + [DOT] + q;
  }

  lemma CleanParts(d: Doc)
    requires Clean(d) && d != []
    ensures DOT !in d[0].name && Clean(d[1..]) && (d[0].value.Object? ==> Clean(d[0].value.doc))
  {
    assert forall i :: 0 <= i < |d| - 1 ==> d[1..][i] == d[i + 1];
  }

  lemma LeafCases(d: Doc, base: CString, g: Field)
    requires d != [] && g in Leaves(d, base)
    ensures var f := d[0];
            || g in Leaves(d[1..], base)
            || (if f.value.Object? then g in Leaves(f.value.doc, base + f.name + [DOT])
                else g == Field(base + f.name, f.value))
  {
  }

  lemma SubHere(d: Doc, p: CString)
    requires d != [] && d[0].value.Object? && d[0].name + [DOT] <= p
    requires p == d[0].name + [DOT] || HasSub(d[0].value.doc, p[|d[0].name| + 1..])
    ensures HasSub(d, p)
  {
  }

  lemma SubsOfRest(d: Doc, p: CString)
    requires d != [] && HasSub(d[1..], p)
    ensures HasSub(d, p)
  {
    var e := d[1..];
    var i :| 0 <= i < |e| && e[i].value.Object? && e[i].name + [DOT] <= p &&
      (p == e[i].name + [DOT] || HasSub(e[i].value.doc, p[|e[i].name| + 1..]));
    assert d[i + 1] == e[i];
  }

  /** Every leaf's name starts with the base it was flattened under. */
  lemma {:induction false} LeafUnder(d: Doc, base: CString, g: Field)
    requires g in Leaves(d, base)
    ensures base <= g.name
    decreases d
  {
    var f := d[0];
    if g in Leaves(d[1..], base) {
      LeafUnder(d[1..], base, g);
    } else if f.value.Object? {
      LeafUnder(f.value.doc, base + f.name + [DOT], g);
    }
  }

  lemma HeadOfPrefix(base: CString, name: CString, p: CString, whole: CString)
    requires DOT !in name && p != [] && p[|p| - 1] == DOT && base + p <= whole && base + name + [DOT] <= whole
    ensures name + [DOT] <= p
  {
    var n := |base|;
    assert forall i :: 0 <= i < |p| ==> p[i] == (base + p)[n + i] == whole[n + i];
    assert forall i :: 0 <= i < |name| ==> name[i] == (base + name + [DOT])[n + i] == whole[n + i];
    assert (base + name + [DOT])[n + |name|] == whole[n + |name|] == DOT;
    assert forall j :: n <= j < n + |name| ==> whole[j] == name[j - n] != DOT;
    assert whole[n + |p| - 1] == DOT;
  }

  lemma NoDotPrefix(base: CString, name: CString, p: CString)
    requires DOT !in name && p != [] && p[|p| - 1] == DOT
    ensures !(base + p <= base + name)
  {
    if base + p <= base + name {
      PrefixCancelled(base, p, name);
    }
  }

  /** Every name of a document is the name of an item. */
  lemma {:induction false} NamesKept(d: Doc, f: Field)
    requires f in d
    ensures exists g :: g in Items(d) && g.name == f.name
  {
    var e, last := d[..|d| - 1], d[|d| - 1];
    assert d == e + [last];
    ItemsSorted(e);
    AssignAscending(Items(e), last);
    if f.name == last.name {
      assert last in Items(d);
    } else {
      assert f in e;
      NamesKept(e, f);
      var g :| g in Items(e) && g.name == f.name;
      assert g in Items(d);
    }
  }

  /**
   For an invertible document each dotted prefix of a name is exactly one subobject of the nested
   form: there is one, and at every level no second one of that name.
   */
  lemma EachPrefixOnce(d: Doc, f: Field, p: CString)
    requires Invertible(Items(d)) && f in d && p <= f.name && p != [] && p[|p| - 1] == DOT
    ensures Nested(d).Done? && HasSub(NestedDoc(d), p) && Once(NestedDoc(d))
  {
    hide Leaves, Dotted, Once, Clean, HasSub, BuildAll, Items;
    NamesKept(d, f);
    var g :| g in Items(d) && g.name == f.name;
    ItemsSorted(d);
    RoundTrip(d);
    OnceOfItems(d);
    BuildClean(Items(d));
    PopToClean(BuildAll(Items(d)).fs, 1);
    assert [] + p == p;
    LeafInSubs(NestedDoc(d), [], g, p);
  }

  lemma OnceOfItems(d: Doc)
    requires NoObjects(Items(d))
    ensures Once(NestedDoc(d))
  {
    hide Once, Path, BuildAll, Items;
    ItemsSorted(d);
    BuildOnce(Items(d));
    PopToOnce(BuildAll(Items(d)).fs, 1);
  }
}
