/**
 `dotted2nested` and `nested2dotted` on bytes: the stack of builders that share one buffer, and the
 one thing that makes the conversions throw, the size of what they build.
 */
module DottedBytes {
  import opened Bytes
  import opened BsonTypes
  import opened BsonEncoding
  import opened BsonValid
  import opened BsonBuilder
  import opened DottedNested
  import opened DottedLeaves

  // ---- The size the open builders will have once closed ----

  function Weight(fs: Stack): nat
    decreases |fs|
  {
    var n := |fs| - 1;
    (if n == 0 then 0 else Weight(fs[..n]) + |fs[n].name| + 2) + |EncBody(fs[n].fields)| + 5
  }

  lemma ObjectSize(f: Field)
    ensures f.value.Object? ==> |EncField(f)| == |f.name| + |EncBody(f.value.doc)| + 7
  {
    if f.value.Object? {
      ChildBytes(f);
      HeadSize(f.name);
    }
  }

  lemma BodyMore(d: Doc, f: Field)
    ensures EncBody(d + [f]) == EncBody(d) + EncField(f)
  {
    EncBodyConcat(d, [f]);
    EncBodyOne(f);
  }

  lemma AppendWeight(fs: Stack, f: Field)
    ensures Weight(Appended(fs, f)) == Weight(fs) + |EncField(f)|
  {
    hide EncBody, EncField;
    var n := |fs| - 1;
    BodyMore(fs[n].fields, f);
    assert Appended(fs, f)[..n] == fs[..n];
  }

  /** Closing a builder moves its bytes into its parent. */
  lemma PopWeight(fs: Stack)
    requires |fs| > 1
    ensures Weight(Popped(fs)) == Weight(fs)
  {
    hide EncBody, EncField;
    var n := |fs| - 1;
    var child := Field(fs[n].name, Object(fs[n].fields));
    assert Popped(fs) == Appended(fs[..n], child);
    AppendWeight(fs[..n], child);
    ObjectSize(child);
  }

  lemma {:induction false} PopToWeight(fs: Stack, i: nat)
    requires 1 <= i <= |fs|
    ensures Weight(PopTo(fs, i)) == Weight(fs)
    decreases |fs|
  {
    hide Weight, Popped;
    if i < |fs| {
      PopWeight(fs);
      PoppedNames(fs);
      PopToWeight(Popped(fs), i);
    }
  }

  lemma OpenWeight(fs: Stack, name: CString)
    ensures Weight(fs + [Frame(name, [])]) == Weight(fs) + |name| + 7
  {
    assert (fs + [Frame(name, [])])[..|fs|] == fs;
    assert EncBody([]) == [];
  }

  lemma TopWithin(fs: Stack)
    ensures |EncDoc(fs[|fs| - 1].fields)| <= Weight(fs)
  {
  }

  lemma RootWeight(fs: Stack)
    ensures Weight(fs) == |EncDoc(PopTo(fs, 1)[0].fields)|
  {
    hide PopTo;
    PopToWeight(fs, 1);
  }

  // ---- The bytes of open builders ----

  /** Type byte and name of the object field a builder will become. */
  function Head(name: CString): seq<byte> {
    [3] + (name + NUL)
  }

  /**
   What the shared buffer holds: for each builder the head of its field, room for its length at its
   offset, and its elements.
   */
  predicate Open(c: seq<byte>, fs: Stack, offsets: seq<nat>)
    decreases |fs|
  {
    var n := |fs| - 1;
    && |offsets| == |fs| && offsets[n] + 4 <= |c| && c[offsets[n] + 4..] == EncBody(fs[n].fields)
    && (n > 0 ==>
          var h := |fs[n].name| + 2;
          && h <= offsets[n] && c[offsets[n] - h..offsets[n]] == Head(fs[n].name)
          && Open(c[..offsets[n] - h], fs[..n], offsets[..n]))
  }

  /** Nothing else is in the buffer, so its length is known from the weight. */
  lemma {:induction false} OpenLength(c: seq<byte>, fs: Stack, offsets: seq<nat>)
    requires Open(c, fs, offsets)
    ensures |c| + |fs| == offsets[0] + Weight(fs)
    decreases |fs|
  {
    var n := |fs| - 1;
    if n > 0 {
      var h := |fs[n].name| + 2;
      OpenLength(c[..offsets[n] - h], fs[..n], offsets[..n]);
    }
  }

  lemma OpenAppended(c: seq<byte>, fs: Stack, offsets: seq<nat>, f: Field)
    requires Open(c, fs, offsets)
    ensures Open(c + EncField(f), Appended(fs, f), offsets)
  {
    hide EncBody, EncField;
    var n := |fs| - 1;
    var e, gs := c + EncField(f), Appended(fs, f);
    BodyMore(fs[n].fields, f);
    assert e[offsets[n] + 4..] == c[offsets[n] + 4..] + EncField(f);
    if n > 0 {
      var h := |fs[n].name| + 2;
      assert gs[..n] == fs[..n] && e[..offsets[n] - h] == c[..offsets[n] - h];
      assert e[offsets[n] - h..offsets[n]] == c[offsets[n] - h..offsets[n]];
    }
  }

  lemma OpenAdded(c: seq<byte>, fs: Stack, offsets: seq<nat>, name: CString, room: seq<byte>)
    requires Open(c, fs, offsets) && |room| == 4
    ensures Open(c + Head(name) + room, fs + [Frame(name, [])], offsets + [|c| + |Head(name)|])
  {
    var e, gs, os := c + Head(name) + room, fs + [Frame(name, [])], offsets + [|c| + |Head(name)|];
    hide Head, Open;
    HeadSize(name);
    OpenShape(c, fs, offsets);
    var n := |fs|;
    assert gs[..n] == fs && os[..n] == offsets && e[..os[n] - (|name| + 2)] == c;
    assert e[os[n] - (|name| + 2)..os[n]] == Head(name);
    assert e[os[n] + 4..] == [];
    OpenUnfold(e, gs, os);
  }

  lemma OpenShape(c: seq<byte>, fs: Stack, offsets: seq<nat>)
    requires Open(c, fs, offsets)
    ensures |offsets| == |fs| && offsets[|fs| - 1] + 4 <= |c|
  {
  }

  lemma HeadSize(name: CString)
    ensures |Head(name)| == |name| + 2
  {
  }

  lemma OpenUnfold(c: seq<byte>, fs: Stack, offsets: seq<nat>)
    requires var n := |fs| - 1;
             && n > 0 && |offsets| == |fs| && offsets[n] + 4 <= |c|
             && |fs[n].name| + 2 <= offsets[n] && fs[n].fields == []
             && c[offsets[n] + 4..] == [] && c[offsets[n] - (|fs[n].name| + 2)..offsets[n]] == Head(fs[n].name)
             && Open(c[..offsets[n] - (|fs[n].name| + 2)], fs[..n], offsets[..n])
    ensures Open(c, fs, offsets)
  {
    assert EncBody([]) == [];
  }

  /** What `_done` leaves of the top builder: its field, whole. */
  lemma OpenClosed(c: seq<byte>, fs: Stack, offsets: seq<nat>)
    requires Open(c, fs, offsets) && |fs| > 1
    ensures var n := |fs| - 1;
            && offsets[n] + 4 <= |c|
            && Open(c[..offsets[n]] + Le4(|c| + 1 - offsets[n]) + c[offsets[n] + 4..] + NUL, Popped(fs), offsets[..n])
  {
    hide EncBody, EncField, Le4;
    var n := |fs| - 1;
    var h, child := |fs[n].name| + 2, Field(fs[n].name, Object(fs[n].fields));
    var c0 := c[..offsets[n] - h];
    ChildBytes(child);
    assert c[..offsets[n]] == c0 + c[offsets[n] - h..offsets[n]];
    assert c[..offsets[n]] + Le4(|c| + 1 - offsets[n]) + c[offsets[n] + 4..] + NUL == c0 + EncField(child);
    assert Popped(fs) == Appended(fs[..n], child);
    OpenAppended(c0, fs[..n], offsets[..n], child);
  }

  lemma ChildBytes(child: Field)
    requires child.value.Object?
    ensures var body := EncBody(child.value.doc);
            EncField(child) == Head(child.name) + (Le4(|body| + 5) + (body + NUL))
  {
    hide Le4, EncBody;
    var v := EncValue(child.value);
    assert v == EncDoc(child.value.doc) && TypeOf(child.value) == 3;
    hide EncDoc, EncValue;
    assert [3] + (child.name + (NUL + v)) == ([3] + (child.name + NUL)) + v;
  }

  // ---- EmbeddedBuilder ----

  class EmbeddedBuilder {
    const b: BufBuilder
    var names: seq<CString>
    var offsets: seq<nat>

    /** The fields of every open builder. */
    ghost var frames: Stack

    /** The buffer holds the open builders, unless they have grown beyond the maximum object size. */
    ghost predicate Valid()
      reads this, b, b.data
    {
      && b.Valid()
      && |names| == |offsets| == |frames| && (forall k :: 0 <= k < |frames| ==> names[k] == frames[k].name)
      && offsets[0] == 4
      && (if b.thrown then Weight(frames) > MAX_OBJECT else Open(b.Contents(), frames, offsets))
    }

    /** On a new builder, whose own length goes behind the reference count. */
    constructor ()
      ensures Valid() && frames == ROOT && fresh(b) && fresh(b.data) && !b.thrown
    {
      b := new BufBuilder(512 + 4);
      names, offsets, frames := [[]], [4], ROOT;
      new;
      b.AppendBuf(Le4(0));
      b.Grow(4);
      assert b.Contents()[8..] == [] == EncBody([]);
    }

    method PopBuilder()
      requires Valid() && |names| > 1
      modifies this, b, b.data
      ensures b.data == old(b.data) || fresh(b.data)
      ensures Valid() && frames == Popped(old(frames)) && (old(b.thrown) ==> b.thrown)
    {
      hide Weight, Open, Popped, EncDoc;
      ghost var fs, c := frames, if b.thrown then [] else b.Contents();
      PopWeight(fs);
      PoppedNames(fs);
      TopWithin(fs);
      var n := |names| - 1;
      if !b.thrown {
        OpenClosed(c, fs, offsets);
        OpenLength(c, fs, offsets);
        TopSize(c, fs, offsets);
        hide Le4;
        CloseAt(offsets[n]);
      }
      names, offsets := names[..n], offsets[..n];
      frames := Popped(fs);
    }

    /** `done()` of the builder at `offset`: NUL and length, and the size check of the `BSONObj` it returns. */
    method CloseAt(offset: nat)
      requires b.Valid() && !b.thrown && offset + 4 <= b.l
      modifies b, b.data
      ensures b.data == old(b.data) || fresh(b.data)
      ensures b.Valid()
      ensures var c, size := old(b.Contents()), old(b.l) + 1 - offset;
              if b.thrown then size > MAX_OBJECT || |c| + 1 > MAX_OBJECT + 4
              else b.Contents() == c[..offset] + Le4(size) + c[offset + 4..] + NUL
    {
      ghost var c := b.Contents();
      b.AppendBuf(NUL);
      if b.thrown {
        return;
      }
      var size := b.l - offset;
      assert (c + NUL)[offset + 4..] == c[offset + 4..] + NUL && (c + NUL)[..offset] == c[..offset];
      b.Patch(offset, size);
      if size > MAX_OBJECT {
        b.thrown := true;
      }
    }

    /** `addBuilder`: `subobjStart`, and a builder on the same buffer. */
    method AddBuilder(name: CString)
      requires Valid()
      modifies this, b, b.data
      ensures b.data == old(b.data) || fresh(b.data)
      ensures Valid() && frames == old(frames) + [Frame(name, [])] && (old(b.thrown) ==> b.thrown)
    {
      hide Weight, Open;
      ghost var fs, c := frames, if b.thrown then [] else b.Contents();
      OpenWeight(fs, name);
      if !b.thrown {
        OpenLength(c, fs, offsets);
      }
      AppendHead(b, 3, name);
      var at := b.l;
      b.Grow(4);
      if !b.thrown {
        OpenAdded(c, fs, offsets, name, b.Contents()[at..]);
        assert b.Contents() == c + Head(name) + b.Contents()[at..];
      }
      names, offsets := names + [name], offsets + [at];
      frames := fs + [Frame(name, [])];
    }

    static method SplitDot(str: CString) returns (ret: CString, rest: CString)
      ensures var i := IndexOfDot(str);
              if i == |str| then ret == [] && rest == str else ret == str[..i] && rest == str[i + 1..]
    {
      var pos := IndexOfDot(str);
      if pos == |str| {
        return [], str;
      }
      ret, rest := str[..pos], str[pos + 1..];
    }

    /** The first loop of `prepareContext`: how far the open builders match the name. */
    method MatchNames(name: CString) returns (ok: bool, i: nat, rest: CString)
      requires Valid()
      ensures match Matched(frames, 1, name)
              case OutOfRange => !ok
              case Match(j, r) => ok && i == j && rest == r
    {
      hide Weight, Open, EncBody;
      i := 1;
      var n := |names|;
      rest := name;
      while i < n && names[i] <= rest && (|rest| == |names[i]| || rest[|names[i]|] == DOT)
        invariant 1 <= i <= n == |frames| && Matched(frames, 1, name) == Matched(frames, i, rest)
        decreases n - i
      {
        if |names[i]| + 1 > |rest| {
          return false, i, rest;
        }
        rest := rest[|names[i]| + 1..];
        i := i + 1;
      }
      ok := true;
    }

    /** The last loop of `prepareContext`: a builder for every component but the last. */
    method AddBuilders(name: CString) returns (rest: CString)
      requires Valid()
      modifies this, b, b.data
      ensures b.data == old(b.data) || fresh(b.data)
      ensures Valid() && (frames, rest) == Opened(old(frames), name) && (old(b.thrown) ==> b.thrown)
    {
      hide Weight, Open, EncBody;
      var next;
      next, rest := SplitDot(name);
      while next != []
        invariant Valid() && (b.data == old(b.data) || fresh(b.data)) && (old(b.thrown) ==> b.thrown)
        invariant Opened(old(frames), name) == if next == [] then (frames, rest)
            else Opened(frames + [Frame(next, [])], rest)
        decreases |rest| + |next|
      {
        AddBuilder(next);
        next, rest := SplitDot(rest);
      }
    }

    /** `prepareContext`: `ok` is false when `substr` is asked for a position past the end. */
    method PrepareContext(name: CString) returns (ok: bool, rest: CString)
      requires Valid()
      modifies this, b, b.data
      ensures b.data == old(b.data) || fresh(b.data)
      ensures Valid() && (old(b.thrown) ==> b.thrown)
      ensures match Matched(old(frames), 1, name)
              case OutOfRange => !ok && frames == old(frames)
              case Match(i, r) => ok && (frames, rest) == Opened(PopTo(old(frames), i), r)
    {
      hide Weight, Open, EncBody, Opened, PopTo;
      var i;
      ok, i, rest := MatchNames(name);
      if ok {
        PopBuilders(i);
        rest := AddBuilders(rest);
      }
    }

    /** The loop that closes all builders above position `i`; `done` is that loop down to the root. */
    method PopBuilders(i: nat)
      requires Valid() && 1 <= i <= |names|
      modifies this, b, b.data
      ensures b.data == old(b.data) || fresh(b.data)
      ensures Valid() && frames == PopTo(old(frames), i) && (old(b.thrown) ==> b.thrown)
    {
      hide Weight, Open, EncBody;
      while |names| > i
        invariant i <= |names| && Valid() && PopTo(frames, i) == PopTo(old(frames), i)
        invariant (b.data == old(b.data) || fresh(b.data)) && (old(b.thrown) ==> b.thrown)
        decreases |names|
      {
        PopBuilder();
      }
    }

    method AppendAs(f: Field) returns (ok: bool)
      requires Valid()
      modifies this, b, b.data
      ensures b.data == old(b.data) || fresh(b.data)
      ensures Valid() && (old(b.thrown) ==> b.thrown)
      ensures match Added(old(frames), f)
              case Thrown => !ok && frames == old(frames)
              case Done(fs) => ok && frames == fs
    {
      hide Weight, Open, EncBody, EncField, Matched, Opened, PopTo, Appended;
      var name;
      if f.value == Object([]) {
        ok, name := PrepareContext(f.name + [DOT] + FOO);
        return;
      }
      ok, name := PrepareContext(f.name);
      if ok {
        AppendTop(Field(name, f.value));
      }
    }

    /** `back()->appendAs`. */
    method AppendTop(f: Field)
      requires Valid()
      modifies this, b, b.data
      ensures b.data == old(b.data) || fresh(b.data)
      ensures Valid() && frames == Appended(old(frames), f) && (old(b.thrown) ==> b.thrown)
    {
      hide Weight, Open, EncBody, EncField;
      ghost var fs, c := frames, if b.thrown then [] else b.Contents();
      AppendWeight(fs, f);
      if !b.thrown {
        OpenLength(c, fs, offsets);
        OpenAppended(c, fs, offsets, f);
      }
      AppendField(b, f);
      frames := Appended(fs, f);
    }
  }

  lemma TopSize(c: seq<byte>, fs: Stack, offsets: seq<nat>)
    requires Open(c, fs, offsets)
    ensures var n := |fs| - 1; offsets[n] + 4 <= |c| && |c| + 1 - offsets[n] == |EncDoc(fs[n].fields)|
  {
  }

  // ---- The conversions ----

  /** `bson2map`. */
  method Bson2Map(d: Doc) returns (m: Doc)
    ensures m == Items(d)
  {
    m := [];
    var it := 0;
    while it < |d|
      invariant 0 <= it <= |d| && m == Items(d[..it])
    {
      assert d[..it + 1][..it] == d[..it];
      m := Assign(m, d[it]);
      it := it + 1;
    }
    assert d[..|d|] == d;
  }

  /** The root builder is done: its length is patched in and its NUL appended. */
  method CloseRoot(eb: EmbeddedBuilder) returns (r: Option<seq<byte>>)
    requires eb.Valid() && |eb.names| == 1
    modifies eb.b, eb.b.data
    ensures var d := eb.frames[0].fields; r == if |EncDoc(d)| <= MAX_OBJECT then Some(EncDoc(d)) else None
  {
    var b := eb.b;
    ghost var d := eb.frames[0].fields;
    assert Weight(eb.frames) == |EncDoc(d)|;
    if !b.thrown {
      ghost var c := b.Contents();
      assert |c| == 8 + |EncBody(d)| && c[8..] == EncBody(d);
      hide EncBody, Le4, Weight, Open;
      eb.CloseAt(4);
      assert !b.thrown ==> b.Contents()[4..] == Le4(|EncBody(d)| + 5) + (EncBody(d) + NUL);
    }
    hide EncBody, Le4;
    r := TakeObject(b, d);
  }

  /**
   `dotted2nested`: the bytes of the nested form exactly when they are within the maximum object
   size, and an exception otherwise. There is no other exception, and no document it gets wrong.
   */
  method Dotted2Nested(d: Doc) returns (r: Option<seq<byte>>)
    ensures r == if |EncDoc(NestedDoc(d))| <= MAX_OBJECT then Some(EncDoc(NestedDoc(d))) else None
  {
    var sorted := Bson2Map(d);
    ItemsSorted(d);
    hide Ascending, Components, Path, Dotted, Added, Items, Weight, EncDoc, EncBody, Open;
    var eb := new EmbeddedBuilder();
    var it := 0;
    while it < |sorted|
      invariant 0 <= it <= |sorted| && BuildAll(sorted[..it]) == Done(eb.frames)
      invariant eb.Valid() && fresh(eb) && fresh(eb.b) && fresh(eb.b.data)
    {
      BuildStep(sorted, it);
      var ok := eb.AppendAs(sorted[it]);
      it := it + 1;
    }
    assert sorted[..|sorted|] == sorted;
    eb.PopBuilders(1);
    r := CloseRoot(eb);
  }

  /** The recursive walk of `nested2dotted`; a `BSONObj` embedded in one of admissible size is one. */
  method Flatten(b: BufBuilder, d: Doc, base: CString)
    requires b.Valid()
    modifies b, b.data
    ensures b.data == old(b.data) || fresh(b.data)
    ensures Grew(b, EncBody(Leaves(d, base)))
    decreases d
  {
    hide EncBody, EncField, EncDoc;
    var it := 0;
    assert Leaves(d[..0], base) == [] && EncBody([]) == [] by { EmptyBody(); }
    while it < |d|
      invariant 0 <= it <= |d|
      invariant b.Valid() && (b.data == old(b.data) || fresh(b.data))
      invariant Grew(b, EncBody(Leaves(d[..it], base)))
    {
      var e := d[it];
      FlattenStep(d, it, base);
      if e.value.Object? {
        Flatten(b, e.value.doc, base + e.name + [DOT]);
      } else {
        AppendField(b, Field(base + e.name, e.value));
      }
      it := it + 1;
    }
    assert d[..|d|] == d;
  }

  lemma EmptyBody()
    ensures EncBody([]) == []
  {
  }

  lemma FlattenStep(d: Doc, it: nat, base: CString)
    requires it < |d|
    ensures var e := d[it];
            EncBody(Leaves(d[..it + 1], base)) == EncBody(Leaves(d[..it], base))
              + if e.value.Object? then EncBody(Leaves(e.value.doc, base + e.name + [DOT]))
                else EncField(Field(base + e.name, e.value))
  {
    hide EncBody, EncField, Leaves;
    var e := d[it];
    assert d[..it + 1] == d[..it] + [e];
    LeavesConcat(d[..it], [e], base);
    LeavesOne(e, base);
    EncBodyConcat(Leaves(d[..it], base), Leaves([e], base));
    EncBodyOne(Field(base + e.name, e.value));
  }

  /** `nested2dotted`: the bytes of the leaves under their dotted names, if they are not too many. */
  method Nested2Dotted(d: Doc) returns (r: Option<seq<byte>>)
    ensures var flat := Leaves(d, []); r == if |EncDoc(flat)| <= MAX_OBJECT then Some(EncDoc(flat)) else None
  {
    ghost var flat := Leaves(d, []);
    hide EncDoc, EncBody, Leaves, Le4;
    DocSize(flat);
    var b := new BufBuilder(512 + 4);
    b.AppendBuf(Le4(0));
    var root := new ObjBuilder(b);
    ghost var open := if b.thrown then [] else b.Contents();
    Flatten(b, d, []);
    if !b.thrown {
      Assembled(Le4(0), open, flat);
    }
    root.Done();
    r := TakeObject(b, flat);
  }

  // ---- Both ways ----

  lemma {:induction false} AssignSize(d: Doc, f: Field)
    ensures |EncBody(Assign(d, f))| <= |EncBody(d)| + |EncField(f)|
    decreases |d|
  {
    hide EncField;
    if d == [] || Less(f.name, d[0].name) {
      assert ([f] + d)[1..] == d;
    } else if d[0].name == f.name {
      assert ([f] + d[1..])[1..] == d[1..];
    } else {
      AssignSize(d[1..], f);
      assert ([d[0]] + Assign(d[1..], f))[1..] == Assign(d[1..], f);
    }
  }

  /** Fields of equal name replace each other, so the map's document is no larger. */
  lemma {:induction false} ItemsSize(d: Doc)
    ensures |EncBody(Items(d))| <= |EncBody(d)|
    decreases |d|
  {
    hide EncBody, EncField;
    if d != [] {
      var e, f := d[..|d| - 1], d[|d| - 1];
      assert d == e + [f];
      ItemsSize(e);
      AssignSize(Items(e), f);
      BodyMore(e, f);
    } else {
      EmptyBody();
    }
  }

  /** Different documents have different bytes. */
  lemma SameBytes(d: Doc, e: Doc)
    requires |EncDoc(d)| < INT_LIMIT && EncDoc(d) == EncDoc(e)
    ensures d == e
  {
    hide EncDoc, ReadDoc;
    ReadDocRight(d, []);
    ReadDocRight(e, []);
  }

  /**
   There and back, on the bytes of an admissible document: the first conversion succeeds exactly
   when the nested form is admissible, and then the second gives the document in name order exactly
   when it is invertible. With object values it gives what flattening the document itself would, if
   no leaf's name has an empty inner component.
   */
  method BothWays(d: Doc) returns (nested: Option<seq<byte>>, flat: Option<seq<byte>>)
    requires |EncDoc(d)| <= MAX_OBJECT
    ensures nested.Some? <==> |EncDoc(NestedDoc(d))| <= MAX_OBJECT
    ensures nested.Some? ==> (flat == Some(EncDoc(Items(d))) <==> Invertible(Items(d)))
    ensures nested.Some? && LeavesInPlace(Items(d)) ==>
              var leaves := Leaves(Items(d), []);
              flat == if |EncDoc(leaves)| <= MAX_OBJECT then Some(EncDoc(leaves)) else None
    ensures nested.Some? && NoDots(d) ==> nested.value == EncDoc(Kept(Items(d)))
  {
    LeavesKept(d);
    if NoDots(d) {
      Undotted(d);
    }
    DocSize(d);
    DocSize(Items(d));
    ItemsSize(d);
    RoundTrip(d);
    hide EncDoc, EncBody, Leaves, NestedDoc, Items, Invertible, ReadDoc, Nested, LeavesInPlace, Kept, NoDots;
    nested, flat := None, None;
    nested := Dotted2Nested(d);
    if nested.Some? {
      var doc := ReadBack(nested.value, NestedDoc(d));
      flat := Nested2Dotted(doc);
      if flat == Some(EncDoc(Items(d))) {
        SameBytes(Leaves(doc, []), Items(d));
      }
    }
  }

  method ReadBack(bytes: seq<byte>, ghost d: Doc) returns (doc: Doc)
    requires bytes == EncDoc(d) && |bytes| <= MAX_OBJECT
    ensures doc == d
  {
    hide EncDoc, ReadDoc;
    ReadDocRight(d, []);
    assert EncDoc(d) + [] == bytes;
    var read := ReadDoc(bytes);
    doc := read.value;
  }

  // ---- A document whose nested form is too large ----

  const A: CString := [0x61]

  /** `a.a.….a`, with `n` components. */
  function Chain(n: nat): CString {
    if n <= 1 then A else A + [DOT] + Chain(n - 1)
  }

  lemma {:induction false} ChainLength(n: nat)
    requires n >= 1
    ensures |Chain(n)| == 2 * n - 1
  {
    if n > 1 {
      ChainLength(n - 1);
    }
  }

  lemma {:induction false} OpenedChain(fs: Stack, n: nat)
    requires n >= 1
    ensures var (gs, last) := Opened(fs, Chain(n)); Weight(gs) == Weight(fs) + 8 * (n - 1) && last == A
    decreases n
  {
    hide Weight;
    if n > 1 {
      IndexOfDotAt(A, Chain(n - 1));
      var name := Chain(n);
      assert name == A + [DOT] + Chain(n - 1) && name[..1] == A && name[2..] == Chain(n - 1);
      OpenWeight(fs, A);
      OpenedChain(fs + [Frame(A, [])], n - 1);
    } else {
      assert DOT !in A && IndexOfDot(A) == 1;
    }
  }

  /** The one field `a.a.….a: null` takes two bytes a component, and eight a component in nested form. */
  lemma ChainSizes(n: nat)
    requires n >= 1
    ensures var d := [Field(Chain(n), Null)];
            |EncDoc(d)| == 2 * n + 6 && |EncDoc(NestedDoc(d))| == 8 * n
  {
    var f := Field(Chain(n), Null);
    ChainLength(n);
    EncBodyOne(f);
    DocSize([f]);
    assert |EncField(f)| == 2 * n + 1;
    assert [f][..0] == [] && Items([]) == [] && Items([f]) == [f] && BuildAll([f][..0]) == Done(ROOT);
    OpenedChain(ROOT, n);
    var (gs, last) := Opened(ROOT, Chain(n));
    assert Added(ROOT, f) == Done(Appended(gs, Field(A, Null)));
    assert BuildAll([f]) == Added(ROOT, f) by { BuildLast([f]); }
    AppendWeight(gs, Field(A, Null));
    RootWeight(Appended(gs, Field(A, Null)));
    assert Weight(ROOT) == 5 by { EmptyBody(); }
    assert |EncField(Field(A, Null))| == 3;
  }

  /** So there is an admissible document of some four megabytes that `dotted2nested` refuses. */
  lemma NestingCanBeRefused()
    ensures var d := [Field(Chain(2_100_000), Null)];
            |EncDoc(d)| <= MAX_OBJECT && |EncDoc(NestedDoc(d))| > MAX_OBJECT && Invertible(d)
  {
    hide EncDoc, NestedDoc, Chain;
    ChainSizes(2_100_000);
    ChainDotted(2_100_000);
  }

  lemma {:induction false} ChainDotted(n: nat)
    requires n >= 1
    ensures Dotted(Chain(n))
  {
    if n > 1 {
      ChainDotted(n - 1);
      DottedRest(A, Chain(n - 1));
    } else {
      assert IndexOfDot(A) == 1;
    }
  }
}
