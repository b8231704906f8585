/**
 `dotted2nested` and `nested2dotted`: a flat document with dotted names turned into nested
 documents through a stack of open builders, and back.
 */
module DottedNested {
  import opened BsonTypes

  // ---- std::map<string, BSONElement>: fields by name, in byte order ----

  predicate Less(a: CString, b: CString) {
    b != [] && (a == [] || a[0] < b[0] || (a[0] == b[0] && Less(a[1..], b[1..])))
  }

  lemma {:induction false} LessTrans(a: CString, b: CString, c: CString)
    requires Less(a, b) && Less(b, c)
    ensures Less(a, c)
  {
    if a != [] && a[0] == b[0] == c[0] {
      LessTrans(a[1..], b[1..], c[1..]);
    }
  }

  lemma {:induction false} LessTotal(a: CString, b: CString)
    ensures a == b || Less(a, b) || Less(b, a)
    ensures !(Less(a, b) && (a == b || Less(b, a)))
  {
    if a != [] && b != [] {
      LessTotal(a[1..], b[1..]);
      assert a[0] == b[0] && a[1..] == b[1..] ==> a == [a[0]] + a[1..] == [b[0]] + b[1..] == b;
    }
  }

  lemma {:induction false} PrefixNotGreater(a: CString, b: CString)
    requires a <= b
    ensures !Less(b, a)
  {
    if a != [] {
      PrefixNotGreater(a[1..], b[1..]);
    }
  }

  predicate Ascending(d: Doc) {
    forall i, j :: 0 <= i < j < |d| ==> Less(d[i].name, d[j].name)
  }

  /** Assignment in the map: a field of that name replaced, or put in its place. */
  function Assign(d: Doc, f: Field): (r: Doc)
  {
    if d == [] || Less(f.name, d[0].name) then [f] + d
    else if d[0].name == f.name then [f] + d[1..]
    else [d[0]] + Assign(d[1..], f)
  }

  /** `bson2map`: every field assigned in turn, so the last of equal names wins. */
  function Items(d: Doc): Doc {
    if d == [] then [] else Assign(Items(d[..|d| - 1]), d[|d| - 1])
  }

  lemma {:induction false} AssignAscending(d: Doc, f: Field)
    requires Ascending(d)
    ensures Ascending(Assign(d, f))
    ensures forall g :: g in Assign(d, f) <==> g == f || (g in d && g.name != f.name)
  {
    if d != [] {
      LessTotal(f.name, d[0].name);
      assert d == [d[0]] + d[1..];
      if Less(f.name, d[0].name) {
        forall j | 0 <= j < |d|
          ensures Less(f.name, d[j].name) && d[j].name != f.name
        {
          if j > 0 {
            LessTrans(f.name, d[0].name, d[j].name);
          }
          LessTotal(f.name, d[j].name);
        }
      } else if d[0].name == f.name {
        forall j | 0 < j < |d|
          ensures d[j].name != f.name
        {
          LessTotal(d[0].name, d[j].name);
        }
      } else {
        AssignAscending(d[1..], f);
        var r := Assign(d[1..], f);
        forall j | 0 <= j < |r|
          ensures Less(d[0].name, r[j].name)
        {
          assert r[j] in r;
          if r[j] != f {
            assert r[j] in d[1..];
          }
        }
      }
    }
  }

  predicate UniqueNames(d: Doc) {
    forall i, j :: 0 <= i < j < |d| ==> d[i].name != d[j].name
  }

  lemma {:induction false} AssignNew(d: Doc, f: Field)
    requires forall j :: 0 <= j < |d| ==> d[j].name != f.name
    ensures multiset(Assign(d, f)) == multiset(d) + multiset{f}
  {
    if d != [] {
      assert d == [d[0]] + d[1..];
      if !Less(f.name, d[0].name) {
        AssignNew(d[1..], f);
      }
    }
  }

  /** The map's items are in ascending order; for a document with unique names they are its fields. */
  lemma {:induction false} ItemsSorted(d: Doc)
    ensures Ascending(Items(d))
    ensures forall g :: g in Items(d) ==> g in d
    ensures UniqueNames(d) ==> multiset(Items(d)) == multiset(d)
  {
    if d != [] {
      var e, f := d[..|d| - 1], d[|d| - 1];
      assert d == e + [f];
      ItemsSorted(e);
      AssignAscending(Items(e), f);
      if UniqueNames(d) {
        forall j | 0 <= j < |Items(e)|
          ensures Items(e)[j].name != f.name
        {
          assert Items(e)[j] in e;
        }
        AssignNew(Items(e), f);
      }
    }
  }

  // ---- nested2dotted ----

  /** The leaves of a document under a dotted prefix; object values are descended into. */
  function Leaves(d: Doc, base: CString): (r: Doc)
    decreases d
  {
    if d == [] then []
    else
      var f := d[0];
      (if f.value.Object? then Leaves(f.value.doc, base + f.name + [DOT]) else [Field(base + f.name, f.value)])
      + Leaves(d[1..], base)
  }

  lemma {:induction false} LeavesConcat(d: Doc, e: Doc, base: CString)
    ensures Leaves(d + e, base) == Leaves(d, base) + Leaves(e, base)
    decreases d
  {
    if d == [] {
      assert d + e == e;
    } else {
      assert (d + e)[1..] == d[1..] + e;
      LeavesConcat(d[1..], e, base);
    }
  }

  predicate NoObjects(d: Doc) {
    forall i :: 0 <= i < |d| ==> !d[i].value.Object?
  }

  lemma {:induction false} LeavesPlain(d: Doc, base: CString)
    ensures NoObjects(Leaves(d, base))
    decreases d
  {
    if d != [] {
      LeavesPlain(d[1..], base);
      if d[0].value.Object? {
        LeavesPlain(d[0].value.doc, base + d[0].name + [DOT]);
      }
    }
  }

  // ---- EmbeddedBuilder: a stack of open builders ----

  /** An open builder: the field it will become in its parent, and the fields it has so far. */
  datatype Frame = Frame(name: CString, fields: Doc)

  type Stack = fs: seq<Frame> | |fs| > 0 witness [Frame([], [])]

  /** The dotted path of the open builders, each name followed by a dot. */
  function Path(fs: seq<Frame>): CString {
    if |fs| <= 1 then [] else Path(fs[..|fs| - 1]) + fs[|fs| - 1].name + [DOT]
  }

  /** Everything appended so far, in order, under its full dotted name. */
  function Emitted(fs: seq<Frame>): Doc {
    if fs == [] then [] else Emitted(fs[..|fs| - 1]) + Leaves(fs[|fs| - 1].fields, Path(fs))
  }

  /** `popBuilder`: the top builder is done and becomes the last field of its parent. */
  function Popped(fs: Stack): (r: Stack)
    requires |fs| > 1
  {
    var n := |fs| - 1;
    var parent := fs[n - 1];
    fs[..n - 1] + [Frame(parent.name, parent.fields + [Field(fs[n].name, Object(fs[n].fields))])]
  }

  function PopTo(fs: Stack, i: nat): (r: Stack)
    requires 1 <= i <= |fs|
    ensures |r| == i
    decreases |fs|
  {
    if i == |fs| then fs else PopTo(Popped(fs), i)
  }

  function Appended(fs: Stack, f: Field): (r: Stack)
    ensures |r| == |fs|
  {
    var n := |fs| - 1;
    fs[..n] + [Frame(fs[n].name, fs[n].fields + [f])]
  }

  lemma PoppedNames(fs: Stack)
    requires |fs| > 1
    ensures |Popped(fs)| == |fs| - 1
    ensures forall k :: 0 <= k < |fs| - 1 ==> Popped(fs)[k].name == fs[k].name
  {
  }

  lemma LeavesOne(f: Field, base: CString)
    ensures Leaves([f], base) ==
            if f.value.Object? then Leaves(f.value.doc, base + f.name + [DOT]) else [Field(base + f.name, f.value)]
  {
    assert [f][1..] == [];
  }

  /** Popping only moves what was emitted into the parent. */
  lemma PopKeeps(fs: Stack)
    requires |fs| > 1
    ensures Emitted(Popped(fs)) == Emitted(fs) && Path(Popped(fs)) == Path(fs[..|fs| - 1])
  {
    hide Emitted, Leaves, Popped;
    var n := |fs| - 1;
    var r, up := Popped(fs), fs[..n];
    var child := Field(fs[n].name, Object(fs[n].fields));
    PoppedNames(fs);
    PathNames(r, up);
    LeavesConcat(fs[n - 1].fields, [child], Path(up));
    LeavesOne(child, Path(up));
    PoppedTop(fs);
    EmittedTop(r);
    EmittedTop(up);
    EmittedTop(fs);
  }

  lemma PoppedTop(fs: Stack)
    requires |fs| > 1
    ensures var n := |fs| - 1;
            && Popped(fs)[..n - 1] == fs[..n][..n - 1]
            && Popped(fs)[n - 1].fields == fs[n - 1].fields + [Field(fs[n].name, Object(fs[n].fields))]
  {
  }

  lemma EmittedTop(fs: Stack)
    ensures Emitted(fs) == Emitted(fs[..|fs| - 1]) + Leaves(fs[|fs| - 1].fields, Path(fs))
  {
  }

  lemma {:induction false} PopToKeeps(fs: Stack, i: nat)
    requires 1 <= i <= |fs|
    ensures Emitted(PopTo(fs, i)) == Emitted(fs) && Path(PopTo(fs, i)) == Path(fs[..i])
    ensures forall k :: 0 <= k < i ==> PopTo(fs, i)[k].name == fs[k].name
    decreases |fs|
  {
    if i < |fs| {
      PopKeeps(fs);
      PoppedNames(fs);
      hide Popped, Emitted, Path;
      PopToKeeps(Popped(fs), i);
      PathNames(Popped(fs)[..i], fs[..i]);
    } else {
      assert fs[..i] == fs;
    }
  }

  lemma {:induction false} PathNames(fs: seq<Frame>, gs: seq<Frame>)
    requires |fs| == |gs| && forall k :: 0 <= k < |fs| ==> fs[k].name == gs[k].name
    ensures Path(fs) == Path(gs)
  {
    if |fs| > 1 {
      PathNames(fs[..|fs| - 1], gs[..|gs| - 1]);
    }
  }

  lemma AppendEmits(fs: Stack, f: Field)
    ensures Emitted(Appended(fs, f)) == Emitted(fs) + Leaves([f], Path(fs)) && Path(Appended(fs, f)) == Path(fs)
  {
    var n := |fs| - 1;
    var r := Appended(fs, f);
    assert r[..n] == fs[..n];
    PathNames(r, fs);
    LeavesConcat(fs[n].fields, [f], Path(fs));
  }

  lemma OpenEmits(fs: Stack, name: CString)
    ensures Emitted(fs + [Frame(name, [])]) == Emitted(fs) && Path(fs + [Frame(name, [])]) == Path(fs) + name + [DOT]
  {
    assert (fs + [Frame(name, [])])[..|fs|] == fs;
  }

  // ---- prepareContext and appendAs ----

  /** How far the open builders match a name: `OutOfRange` when the name is exactly an open path. */
  datatype Match = Match(depth: nat, rest: CString) | OutOfRange

  function Matched(fs: Stack, i: nat, name: CString): (m: Match)
    requires 1 <= i <= |fs|
    ensures m.Match? ==> i <= m.depth <= |fs|
    decreases |fs| - i
  {
    if i < |fs| && fs[i].name <= name && (|name| == |fs[i].name| || name[|fs[i].name|] == DOT) then
      if |name| == |fs[i].name| then OutOfRange else Matched(fs, i + 1, name[|fs[i].name| + 1..])
    else
      Match(i, name)
  }

  /** The loop over `splitDot`: one builder per component, up to the last or to an empty one. */
  function Opened(fs: Stack, name: CString): (r: (Stack, CString))
    ensures |r.0| >= |fs|
    decreases |name|
  {
    var i := IndexOfDot(name);
    if i == |name| then (fs, name)
    else if i == 0 then (fs, name[1..])
    else Opened(fs + [Frame(name[..i], [])], name[i + 1..])
  }

  /** How `appendAs` ends; `Thrown` stands for the `out_of_range` that `substr` throws. */
  datatype Result = Done(fs: Stack) | Thrown

  function Prepared(fs: Stack, name: CString): (r: Match)
    ensures r.Match? ==> 1 <= r.depth <= |fs|
  {
    Matched(fs, 1, name)
  }

  function Added(fs: Stack, f: Field): Result {
    var empty := f.value == Object([]);
    var name := if empty then f.name + [DOT] + FOO else f.name;
    match Prepared(fs, name)
    case OutOfRange => Thrown
    case Match(i, rest) =>
      var (gs, last) := Opened(PopTo(fs, i), rest);
      Done(if empty then gs else Appended(gs, Field(last, f.value)))
  }

  const FOO: CString := [0x66, 0x6F, 0x6F]

  /** No component but the last is empty. */
  predicate Dotted(name: CString) {
    var i := IndexOfDot(name);
    i == |name| || (0 < i && Dotted(name[i + 1..]))
  }

  /** Builder names have no dot and are not empty, as `splitDot` leaves them. */
  predicate Components(fs: Stack) {
    forall k :: 1 <= k < |fs| ==> fs[k].name != [] && DOT !in fs[k].name
  }

  lemma IndexOfDotAt(a: CString, b: CString)
    requires DOT !in a
    ensures IndexOfDot(a + [DOT] + b) == |a|
    decreases a
  {
    var s := a + [DOT] + b;
    if a != [] {
      assert s[1..] == a[1..] + [DOT] + b;
      IndexOfDotAt(a[1..], b);
    }
  }

  lemma PathNext(fs: seq<Frame>, i: nat)
    requires 1 <= i < |fs|
    ensures Path(fs[..i + 1]) == Path(fs[..i]) + fs[i].name + [DOT]
  {
    assert fs[..i + 1][..i] == fs[..i];
  }

  lemma DottedRest(n: CString, rest: CString)
    requires n != [] && DOT !in n
    ensures Dotted(n + [DOT] + rest) <==> Dotted(rest)
  {
    IndexOfDotAt(n, rest);
    assert (n + [DOT] + rest)[|n| + 1..] == rest;
  }

  /** A match splits the name into the open path and the rest, and keeps the rest's shape. */
  lemma {:induction false} MatchedSplits(fs: Stack, i: nat, name: CString)
    requires 1 <= i <= |fs| && Components(fs)
    ensures var m := Matched(fs, i, name);
            match m
            case Match(j, rest) => Path(fs[..i]) + name == Path(fs[..j]) + rest && (Dotted(name) <==> Dotted(rest))
            case OutOfRange => Path(fs[..i]) + name + [DOT] <= Path(fs)
    decreases |fs| - i
  {
    hide Path, Dotted;
    if i < |fs| && fs[i].name <= name && (|name| == |fs[i].name| || name[|fs[i].name|] == DOT) {
      var n := fs[i].name;
      PathNext(fs, i);
      if |name| == |n| {
        assert name == n;
        PathPrefix(fs, i + 1);
      } else {
        var rest := name[|n| + 1..];
        assert name == n + [DOT] + rest;
        DottedRest(n, rest);
        MatchedSplits(fs, i + 1, rest);
        assert Path(fs[..i]) + name == Path(fs[..i + 1]) + rest;
      }
    }
  }

  lemma {:induction false} PathPrefix(fs: seq<Frame>, i: nat)
    requires i <= |fs|
    ensures Path(fs[..i]) <= Path(fs)
    decreases |fs|
  {
    if i < |fs| {
      PathPrefix(fs[..|fs| - 1], i);
      assert fs[..|fs| - 1][..i] == fs[..i];
    } else {
      assert fs[..i] == fs;
    }
  }

  /** Opening components emits nothing; the full name survives unless a component was empty. */
  lemma {:induction false} OpenedKeeps(fs: Stack, name: CString)
    requires Components(fs)
    ensures var (gs, last) := Opened(fs, name);
            && Components(gs) && Emitted(gs) == Emitted(fs)
            && Path(gs) <= Path(fs) + name
            && (if Dotted(name) then Path(gs) + last == Path(fs) + name
                else |Path(gs)| + |last| == |Path(fs)| + |name| - 1)
    decreases |name|
  {
    hide Path, Emitted;
    var i := IndexOfDot(name);
    if 0 < i < |name| {
      var c, rest := name[..i], name[i + 1..];
      var hs := fs + [Frame(c, [])];
      OpenEmits(fs, c);
      assert name == c + [DOT] + rest;
      DottedRest(c, rest);
      OpenedKeeps(hs, rest);
      assert Path(hs) + rest == Path(fs) + name;
    } else if i == 0 && name != [] {
      assert name == [DOT] + name[1..];
    }
  }

  lemma {:induction false} PathEndsInDot(fs: seq<Frame>)
    ensures Path(fs) == [] || Path(fs)[|Path(fs)| - 1] == DOT
  {
  }

  /** The name `appendAs` prepares for: an empty object is prepared as if it had a member. */
  function PreparedName(f: Field): CString {
    if f.value == Object([]) then f.name + [DOT] + FOO else f.name
  }

  /** Names arriving in ascending order never name an open builder exactly. */
  lemma NeverOutOfRange(fs: Stack, prev: CString, f: Field)
    requires Components(fs) && Path(fs) <= prev + [DOT] && (Path(fs) == [] || Less(prev, f.name))
    ensures Matched(fs, 1, PreparedName(f)).Match?
  {
    var name := PreparedName(f);
    MatchedSplits(fs, 1, name);
    if Matched(fs, 1, name).OutOfRange? {
      assert Path(fs[..1]) + name + [DOT] == name + [DOT];
      assert f.name <= name + [DOT] && name + [DOT] <= prev + [DOT];
      assert f.name <= prev by {
        assert |f.name| <= |prev| && prev == (prev + [DOT])[..|prev|];
      }
      PrefixNotGreater(f.name, prev);
    }
  }

  lemma OpenPath(p: CString, f: Field)
    requires p <= PreparedName(f) && (p == [] || p[|p| - 1] == DOT)
    ensures p <= f.name + [DOT]
  {
    if f.value == Object([]) {
      var s := PreparedName(f);
      assert forall j :: |f.name| < j < |s| ==> s[j] == FOO[j - |f.name| - 1] != DOT;
      assert p != [] ==> s[|p| - 1] == DOT;
      assert s[..|f.name| + 1] == f.name + [DOT];
    }
  }

  /** One `appendAs` in ascending order: it does not throw, and it emits one leaf for a plain value. */
  lemma AddedEmits(fs: Stack, prev: CString, f: Field)
    requires Components(fs) && Path(fs) <= prev + [DOT] && (Path(fs) == [] || Less(prev, f.name))
    ensures var r := Added(fs, f);
            && r.Done? && Components(r.fs) && Path(r.fs) <= f.name + [DOT]
            && (!f.value.Object? ==>
                  exists leaf :: Emitted(r.fs) == Emitted(fs) + [Field(leaf, f.value)]
                      && (leaf == f.name <==> Dotted(f.name)))
  {
    hide Path, Emitted, Dotted, PopTo, Opened, Matched, Appended;
    var name := PreparedName(f);
    NeverOutOfRange(fs, prev, f);
    MatchedSplits(fs, 1, name);
    var m := Matched(fs, 1, name);
    PopToKeeps(fs, m.depth);
    var hs := PopTo(fs, m.depth);
    OpenedKeeps(hs, m.rest);
    var (gs, last) := Opened(hs, m.rest);
    RootPath(fs);
    assert Path(hs) + m.rest == name;
    PathEndsInDot(gs);
    OpenPath(Path(gs), f);
    if f.value != Object([]) {
      AppendEmits(gs, Field(last, f.value));
      AppendedNames(gs, Field(last, f.value));
      if !f.value.Object? {
        LeavesOne(Field(last, f.value), Path(gs));
        assert Emitted(Added(fs, f).fs) == Emitted(fs) + [Field(Path(gs) + last, f.value)];
      }
    }
  }

  lemma RootPath(fs: Stack)
    ensures Path(fs[..1]) == []
  {
  }

  lemma AppendedNames(gs: Stack, f: Field)
    requires Components(gs)
    ensures Components(Appended(gs, f))
  {
  }

  // ---- dotted2nested, and the round trip ----

  const ROOT: Stack := [Frame([], [])]

  function BuildAll(items: Doc): Result {
    if items == [] then Done(ROOT)
    else
      match BuildAll(items[..|items| - 1])
      case Thrown => Thrown
      case Done(fs) => Added(fs, items[|items| - 1])
  }

  /** `dotted2nested`: the map's items appended in order, then every builder closed. */
  function Nested(d: Doc): (r: Result)
  {
    match BuildAll(Items(d))
    case Thrown => Thrown
    case Done(fs) => Done(PopTo(fs, 1))
  }

  /** The document in the root builder once `dotted2nested` has returned. */
  function NestedDoc(d: Doc): Doc {
    match Nested(d)
    case Done(fs) => fs[0].fields
    case Thrown => []
  }

  function LastName(items: Doc): CString {
    if items == [] then [] else items[|items| - 1].name
  }

  lemma {:induction false} BuildNeverThrows(items: Doc)
    requires Ascending(items)
    ensures var r := BuildAll(items);
            r.Done? && Components(r.fs) && Path(r.fs) <= LastName(items) + [DOT] && (items == [] ==> Path(r.fs) == [])
  {
    if items != [] {
      var e, f := items[..|items| - 1], items[|items| - 1];
      BuildNeverThrows(e);
      assert e != [] ==> Less(LastName(e), f.name);
      AddedEmits(BuildAll(e).fs, LastName(e), f);
    }
  }

  /** Item by item the leaf is the item exactly where the name has no empty inner component. */
  predicate SameWhereDotted(out: Doc, items: Doc) {
    |out| == |items| && forall i :: 0 <= i < |items| ==> (out[i] == items[i] <==> Dotted(items[i].name))
  }

  lemma SameStep(out: Doc, items: Doc, f: Field, leaf: CString)
    requires SameWhereDotted(out, items) && (leaf == f.name <==> Dotted(f.name))
    ensures SameWhereDotted(out + [Field(leaf, f.value)], items + [f])
  {
    hide Dotted;
  }

  /** One more item after those of `e`. */
  lemma EmitsOne(e: Doc, f: Field)
    requires Ascending(e + [f]) && !f.value.Object?
    requires BuildAll(e).Done? && SameWhereDotted(Emitted(BuildAll(e).fs), e)
    ensures BuildAll(e + [f]).Done? && SameWhereDotted(Emitted(BuildAll(e + [f]).fs), e + [f])
  {
    hide Emitted, SameWhereDotted, Added, BuildAll, Components, Dotted, Path;
    var items, fs := e + [f], BuildAll(e).fs;
    assert items[..|e|] == e;
    AscendingPrefix(items, |e|);
    BuildNeverThrows(e);
    assert e != [] ==> Less(items[|e| - 1].name, items[|e|].name);
    BuildLast(items);
    AddedEmits(fs, LastName(e), f);
    var leaf :| Emitted(Added(fs, f).fs) == Emitted(fs) + [Field(leaf, f.value)]
        && (leaf == f.name <==> Dotted(f.name));
    SameStep(Emitted(fs), e, f, leaf);
  }

  /** What `dotted2nested` has appended, before the builders are closed. */
  lemma {:induction false} BuildEmits(items: Doc)
    requires Ascending(items) && NoObjects(items)
    ensures BuildAll(items).Done? && SameWhereDotted(Emitted(BuildAll(items).fs), items)
  {
    if items != [] {
      hide Emitted, SameWhereDotted, BuildAll;
      var e, f := items[..|items| - 1], items[|items| - 1];
      assert items == e + [f];
      BuildEmits(e);
      EmitsOne(e, f);
    } else {
      assert Leaves([], Path(ROOT)) == [];
    }
  }

  lemma BuildLast(items: Doc)
    requires items != [] && BuildAll(items[..|items| - 1]).Done?
    ensures BuildAll(items) == Added(BuildAll(items[..|items| - 1]).fs, items[|items| - 1])
  {
  }

  lemma ClosedLeaves(fs: Stack)
    ensures Leaves(PopTo(fs, 1)[0].fields, []) == Emitted(fs)
  {
    PopToKeeps(fs, 1);
    var r := PopTo(fs, 1);
    assert r[..0] == [] && Emitted(r) == Emitted(r[..0]) + Leaves(r[0].fields, Path(r));
  }

  /** A document `dotted2nested` inverts: no object value, no name with an empty component but the last. */
  predicate Invertible(d: Doc) {
    NoObjects(d) && forall i :: 0 <= i < |d| ==> Dotted(d[i].name)
  }

  /** `dotted2nested` never asks `substr` for a position past the end, whatever the document. */
  lemma NestedNeverThrows(d: Doc)
    ensures Nested(d).Done?
  {
    ItemsSorted(d);
    BuildNeverThrows(Items(d));
  }

  /**
   The round trip: turning a document into nested form and back gives exactly its fields in name
   order if, and only if, the document is invertible.
   */
  lemma RoundTrip(d: Doc)
    ensures Nested(d).Done?
    ensures Leaves(NestedDoc(d), []) == Items(d) <==> Invertible(Items(d))
  {
    hide Emitted, Leaves, Dotted, BuildAll;
    var items := Items(d);
    ItemsSorted(d);
    BuildNeverThrows(items);
    ClosedLeaves(BuildAll(items).fs);
    if NoObjects(items) {
      BuildEmits(items);
    }
    if Leaves(NestedDoc(d), []) == items {
      LeavesPlain(Nested(d).fs[0].fields, []);
      forall i | 0 <= i < |items|
        ensures Dotted(items[i].name)
      {
      }
    }
  }

  /** For unique names the condition is on the document itself, and the result is the document sorted. */
  lemma RoundTripUnique(d: Doc)
    requires UniqueNames(d)
    ensures Ascending(Items(d)) && multiset(Items(d)) == multiset(d)
    ensures Nested(d).Done?
    ensures Leaves(NestedDoc(d), []) == Items(d) <==> Invertible(d)
  {
    hide Leaves, Items, Dotted;
    ItemsSorted(d);
    RoundTrip(d);
    forall f
      ensures f in Items(d) <==> f in d
    {
      assert f in multiset(Items(d)) <==> f in multiset(d);
    }
    assert Invertible(Items(d)) <==> Invertible(d) by {
      forall i | 0 <= i < |d|
        ensures d[i] in Items(d)
      {
      }
      forall i | 0 <= i < |Items(d)|
        ensures Items(d)[i] in d
      {
      }
      InvertibleMembers(d);
      InvertibleMembers(Items(d));
    }
  }

  lemma InvertibleMembers(d: Doc)
    ensures Invertible(d) <==> forall f :: f in d ==> !f.value.Object? && Dotted(f.name)
  {
  }

  lemma BuildStep(items: Doc, n: nat)
    requires Ascending(items) && n < |items| && BuildAll(items[..n]).Done?
    ensures var r := Added(BuildAll(items[..n]).fs, items[n]);
            r.Done? && BuildAll(items[..n + 1]) == r
  {
    hide Added;
    AscendingPrefix(items, n + 1);
    BuildNeverThrows(items[..n + 1]);
    assert items[..n + 1][..n] == items[..n];
  }

  lemma AscendingPrefix(d: Doc, n: nat)
    requires Ascending(d) && n <= |d|
    ensures Ascending(d[..n])
  {
  }
}
