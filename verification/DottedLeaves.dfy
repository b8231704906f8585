/**
 What `dotted2nested` does to documents with object values: no leaf is lost or renamed but for names
 with empty inner components, and where no name has a dot the document is only sorted.
 */
module DottedLeaves {
  import opened BsonTypes
  import opened DottedNested

  // ---- Leaves under another base ----

  /** Whatever dotted prefix a document is flattened under, its leaves get it in front. */
  lemma {:induction false} LeavesShift(d: Doc, base: CString)
    ensures |Leaves(d, base)| == |Leaves(d, [])|
    ensures forall i :: 0 <= i < |Leaves(d, [])| ==>
              Leaves(d, base)[i] == Field(base + Leaves(d, [])[i].name, Leaves(d, [])[i].value)
    decreases d
  {
    if d != [] {
      var f := d[0];
      LeavesShift(d[1..], base);
      if f.value.Object? {
        var e, p := f.value.doc, f.name + [DOT];
        LeavesShift(e, base + f.name + [DOT]);
        LeavesShift(e, p);
        assert [] + f.name + [DOT] == p;
        forall i | 0 <= i < |Leaves(e, [])|
          ensures Leaves(e, base + f.name + [DOT])[i].name == base + Leaves(e, p)[i].name
        {
          assert base + f.name + [DOT] + Leaves(e, [])[i].name == base + (p + Leaves(e, [])[i].name);
        }
      } else {
        assert [] + f.name == f.name;
      }
    }
  }

  /** One field appended below a path is flattened as the field of the whole name. */
  lemma LeavesBelow(last: CString, v: Value, base: CString)
    ensures Leaves([Field(last, v)], base) == Leaves([Field(base + last, v)], [])
  {
    LeavesOne(Field(last, v), base);
    LeavesOne(Field(base + last, v), []);
    assert [] + (base + last) == base + last;
  }

  /** Under different names a value has as many leaves, and the same only if it has none. */
  lemma LeavesRenamed(a: CString, b: CString, v: Value)
    ensures |Leaves([Field(a, v)], [])| == |Leaves([Field(b, v)], [])|
    ensures Leaves([Field(a, v)], []) == Leaves([Field(b, v)], []) <==> a == b || Leaves([Field(b, v)], []) == []
  {
    LeavesOne(Field(a, v), []);
    LeavesOne(Field(b, v), []);
    assert [] + a == a && [] + b == b;
    if v.Object? {
      LeavesShift(v.doc, a + [DOT]);
      LeavesShift(v.doc, b + [DOT]);
      var r := Leaves(v.doc, []);
      if r != [] && Leaves([Field(a, v)], []) == Leaves([Field(b, v)], []) {
        SameFront(a + [DOT], b + [DOT], r[0].name);
        assert a == (a + [DOT])[..|a|] && b == (b + [DOT])[..|b|];
      }
    }
  }

  lemma SameFront(a: CString, b: CString, s: CString)
    requires a + s == b + s
    ensures a == b
  {
    assert |a| == |b| && a == (a + s)[..|a|] && b == (b + s)[..|b|];
  }

  // ---- dotted2nested, any values ----

  /** One `appendAs` emits the leaves of its field, under its name exactly when the name is dotted. */
  lemma AddedLeaves(fs: Stack, prev: CString, f: Field)
    requires Components(fs) && Path(fs) <= prev + [DOT] && (Path(fs) == [] || Less(prev, f.name))
    ensures var r := Added(fs, f);
            && r.Done?
            && (f.value == Object([]) ==> Emitted(r.fs) == Emitted(fs))
            && (f.value != Object([]) ==>
                  exists leaf: CString :: Emitted(r.fs) == Emitted(fs) + Leaves([Field(leaf, f.value)], [])
                    && (leaf == f.name <==> Dotted(f.name)))
  {
    hide Path, Emitted, Dotted, PopTo, Opened, Matched, Appended, Leaves, Less;
    var name := PreparedName(f);
    NeverOutOfRange(fs, prev, f);
    MatchedSplits(fs, 1, name);
    var m := Matched(fs, 1, name);
    PopToKeeps(fs, m.depth);
    var hs := PopTo(fs, m.depth);
    OpenedKeeps(hs, m.rest);
    var (gs, last) := Opened(hs, m.rest);
    RootPath(fs);
    if f.value != Object([]) {
      var leaf: CString := Path(gs) + last;
      AppendEmits(gs, Field(last, f.value));
      LeavesBelow(last, f.value, Path(gs));
      assert Emitted(Added(fs, f).fs) == Emitted(fs) + Leaves([Field(leaf, f.value)], []);
      assert leaf == f.name <==> Dotted(f.name);
    }
  }

  /** Each field keeps its leaves: its name is dotted, or it has none. */
  predicate LeavesInPlace(items: Doc) {
    forall i :: 0 <= i < |items| ==> Dotted(items[i].name) || Leaves([items[i]], []) == []
  }

  lemma InPlaceMore(e: Doc, f: Field)
    ensures LeavesInPlace(e + [f]) <==> LeavesInPlace(e) && (Dotted(f.name) || Leaves([f], []) == [])
  {
    hide Dotted, Leaves;
    var d := e + [f];
    assert d[|e|] == f && forall i :: 0 <= i < |e| ==> d[i] == e[i];
  }

  lemma {:induction false} BuildLeaves(items: Doc)
    requires Ascending(items)
    ensures BuildAll(items).Done?
    ensures var out := Emitted(BuildAll(items).fs);
            |out| == |Leaves(items, [])| && (out == Leaves(items, []) <==> LeavesInPlace(items))
  {
    if items == [] {
      assert Leaves([], Path(ROOT)) == [];
    } else {
      var e, f := items[..|items| - 1], items[|items| - 1];
      assert items == e + [f] && (e != [] ==> Less(LastName(e), f.name));
      AscendingPrefix(items, |e|);
      hide Emitted, LeavesInPlace, BuildAll, Added, Dotted, Leaves, Path, Components, Less;
      BuildLeaves(e);
      BuildNeverThrows(e);
      BuildNeverThrows(items);
      BuildLast(items);
      AddedLeaves(BuildAll(e).fs, LastName(e), f);
      LeavesConcat(e, [f], []);
      InPlaceMore(e, f);
      NextLeaves(BuildAll(e).fs, e, f);
    }
  }

  lemma NextLeaves(fs: Stack, e: Doc, f: Field)
    requires Added(fs, f).Done? && |Emitted(fs)| == |Leaves(e, [])|
    requires f.value == Object([]) ==> Emitted(Added(fs, f).fs) == Emitted(fs)
    requires f.value != Object([]) ==>
               exists leaf: CString :: Emitted(Added(fs, f).fs) == Emitted(fs) + Leaves([Field(leaf, f.value)], [])
                 && (leaf == f.name <==> Dotted(f.name))
    ensures var out, all := Emitted(Added(fs, f).fs), Leaves(e, []) + Leaves([f], []);
            |out| == |all| &&
            (out == all <==> Emitted(fs) == Leaves(e, []) && (Dotted(f.name) || Leaves([f], []) == []))
  {
    hide Emitted, Added, Dotted;
    var x, y, z := Emitted(fs), Leaves(e, []), Leaves([f], []);
    if f.value == Object([]) {
      LeavesOne(f, []);
      assert Leaves([], f.name + [DOT]) == [];
      assert y + z == y;
    } else {
      var leaf: CString :| Emitted(Added(fs, f).fs) == x + Leaves([Field(leaf, f.value)], [])
        && (leaf == f.name <==> Dotted(f.name));
      var w := Leaves([Field(leaf, f.value)], []);
      LeavesRenamed(leaf, f.name, f.value);
      assert Field(f.name, f.value) == f && |w| == |z|;
      hide Leaves;
      assert (x + w)[..|x|] == x && (x + w)[|x|..] == w && (y + z)[..|y|] == y && (y + z)[|y|..] == z;
    }
  }

  /**
   For every document, object values or not: flattening the nested form gives the leaves of the
   document's own flat form, in the same order, exactly when each field with leaves has a name
   without an empty component before the last.
   */
  lemma LeavesKept(d: Doc)
    ensures Leaves(NestedDoc(d), []) == Leaves(Items(d), []) <==> LeavesInPlace(Items(d))
  {
    hide Emitted, Leaves, BuildAll, LeavesInPlace, Ascending, PopTo, Items;
    ItemsSorted(d);
    BuildLeaves(Items(d));
    ClosedLeaves(BuildAll(Items(d)).fs);
  }

  // ---- Names without dots ----

  predicate NoDots(d: Doc) {
    forall i :: 0 <= i < |d| ==> DOT !in d[i].name
  }

  /** The one field that is dropped: an empty object under the empty name, for which no builder is opened. */
  predicate Dropped(f: Field) {
    f.name == [] && f.value == Object([])
  }

  function Kept(d: Doc): Doc {
    if d == [] then []
    else
      var f := d[|d| - 1];
      Kept(d[..|d| - 1]) + if Dropped(f) then [] else [f]
  }

  /** Behind names without dots at most one builder is open, for an empty object just seen. */
  predicate Flat(fs: Stack, e: Doc) {
    || (|fs| == 1 && fs[0].fields == Kept(e))
    || (|fs| == 2 && e != [] && fs[1] == Frame(LastName(e), [])
        && fs[0].fields + [Field(fs[1].name, Object([]))] == Kept(e))
  }

  lemma FlatClosed(fs: Stack, e: Doc)
    requires Flat(fs, e)
    ensures PopTo(fs, 1) == [Frame(fs[0].name, Kept(e))]
  {
    if |fs| == 2 {
      assert PopTo(fs, 1) == PopTo(Popped(fs), 1) == Popped(fs);
      assert fs[..0] == [];
    }
  }

  lemma NoDotIndex(n: CString)
    requires DOT !in n
    ensures IndexOfDot(n) == |n|
  {
  }

  lemma FlatMatched(fs: Stack, e: Doc, f: Field)
    requires Flat(fs, e) && NoDots(e) && DOT !in f.name && (e != [] ==> Less(LastName(e), f.name))
    ensures Matched(fs, 1, PreparedName(f)) == Match(1, PreparedName(f))
  {
    hide Kept;
    if |fs| == 2 {
      var n, name := LastName(e), PreparedName(f);
      LessTotal(n, f.name);
      assert DOT !in n;
      if n <= name && (|name| == |n| || name[|n|] == DOT) {
        WholeComponent(n, name, f);
      }
    }
  }

  lemma WholeComponent(n: CString, name: CString, f: Field)
    requires DOT !in n && DOT !in f.name && name == PreparedName(f)
    requires n <= name && (|name| == |n| || name[|n|] == DOT)
    ensures n == f.name
  {
    if f.value == Object([]) {
      assert name[|f.name|] == DOT;
      assert forall j :: 0 <= j < |n| ==> name[j] == n[j] && n[j] in n;
      assert |n| <= |f.name|;
      assert forall j :: 0 <= j < |f.name| ==> name[j] == f.name[j] && f.name[j] in f.name;
      assert name[|n|] == DOT;
      assert n == name[..|n|] && f.name == name[..|f.name|];
    }
  }

  lemma FlatOpened(root: Frame, f: Field)
    requires DOT !in f.name
    ensures var (gs, last) := Opened([root], PreparedName(f));
            if f.value != Object([]) then gs == [root] && last == f.name
            else gs == if f.name == [] then [root] else [root, Frame(f.name, [])]
  {
    var n := f.name;
    if f.value == Object([]) {
      IndexOfDotAt(n, FOO);
      assert DOT !in FOO;
      NoDotIndex(FOO);
      var name := n + [DOT] + FOO;
      assert name[..|n|] == n && name[|n| + 1..] == FOO;
      assert [root] + [Frame(n, [])] == [root, Frame(n, [])];
    } else {
      NoDotIndex(n);
    }
  }

  lemma FlatAdded(fs: Stack, e: Doc, f: Field)
    requires Flat(fs, e) && NoDots(e) && DOT !in f.name && (e != [] ==> Less(LastName(e), f.name))
    ensures Added(fs, f).Done? && Flat(Added(fs, f).fs, e + [f])
  {
    hide *;
    FlatMatched(fs, e, f);
    FlatClosed(fs, e);
    var root := Frame(fs[0].name, Kept(e));
    FlatOpened(root, f);
    AddedAs(fs, f);
    FlatNext(root, e, f);
  }

  /** What has been kept before is in the root builder, and the next field goes behind it. */
  lemma FlatNext(root: Frame, e: Doc, f: Field)
    requires root.fields == Kept(e)
    ensures f.value != Object([]) ==> Flat(Appended([root], f), e + [f])
    ensures f.value == Object([]) ==> Flat(if f.name == [] then [root] else [root, Frame(f.name, [])], e + [f])
  {
    assert (e + [f])[..|e|] == e && (e + [f])[|e|] == f;
    assert Appended([root], f) == [Frame(root.name, Kept(e) + [f])];
    assert f.value == Object([]) ==> f == Field(f.name, Object([]));
  }

  lemma AddedAs(fs: Stack, f: Field)
    requires Matched(fs, 1, PreparedName(f)) == Match(1, PreparedName(f))
    ensures var (gs, last) := Opened(PopTo(fs, 1), PreparedName(f));
            Added(fs, f) == Done(if f.value == Object([]) then gs else Appended(gs, Field(last, f.value)))
  {
    hide Matched, Opened, PopTo, Appended;
  }

  lemma {:induction false} BuildFlat(items: Doc)
    requires Ascending(items) && NoDots(items)
    ensures BuildAll(items).Done? && Flat(BuildAll(items).fs, items)
  {
    if items != [] {
      var e, f := items[..|items| - 1], items[|items| - 1];
      assert items == e + [f] && (e != [] ==> Less(LastName(e), f.name));
      AscendingPrefix(items, |e|);
      hide Flat, Added, Less;
      BuildFlat(e);
      FlatAdded(BuildAll(e).fs, e, f);
      BuildLast(items);
    }
  }

  /** Without dots in its names a document comes out sorted and else as it was, but for `Dropped` fields. */
  lemma Undotted(d: Doc)
    requires NoDots(d)
    ensures NestedDoc(d) == Kept(Items(d))
  {
    hide Flat, BuildAll, Kept, PopTo, Items, Ascending;
    ItemsSorted(d);
    assert NoDots(Items(d)) by {
      forall i | 0 <= i < |Items(d)|
        ensures DOT !in Items(d)[i].name
      {
        assert Items(d)[i] in d;
      }
    }
    BuildFlat(Items(d));
    FlatClosed(BuildAll(Items(d)).fs, Items(d));
  }

  /** Nothing is dropped exactly when the document has no empty object under the empty name. */
  lemma {:induction false} KeptAll(d: Doc)
    ensures |Kept(d)| <= |d|
    ensures Kept(d) == d <==> forall i :: 0 <= i < |d| ==> !Dropped(d[i])
  {
    if d != [] {
      var e, f := d[..|d| - 1], d[|d| - 1];
      assert d == e + [f];
      hide Dropped;
      KeptAll(e);
      if Kept(e) == e && !Dropped(f) {
        assert Kept(d) == d;
      }
      if Kept(d) == d {
        assert !Dropped(f) && Kept(e) == (Kept(e) + [f])[..|e|] == e;
      }
    }
  }

  /** `{"": {}}` becomes the empty document. */
  lemma EmptyNameDropped()
    ensures var d := [Field([], Object([]))]; NestedDoc(d) == [] && Items(d) == d
  {
    var d := [Field([], Object([]))];
    assert d[..0] == [] && Items([]) == [] && Kept([]) == [];
    assert Items(d) == Assign([], d[0]) == d;
    Undotted(d);
  }
}
