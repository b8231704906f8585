/**
 Building documents: a growable buffer shared by a builder and the builders nested in it, each of
 which leaves room for its length and patches it when it is done.
 */
module BsonBuilder {
  import opened Bytes
  import opened BsonTypes
  import opened BsonEncoding
  import opened BsonValid
  import BsonGrammar

  /** `BufferMaxSize`. */
  const MAX_BUFFER: nat := 64 * 1024 * 1024

  /** The capacity `grow_reallocate` asks for, before it is checked against the maximum. */
  function NewCapacity(size: nat, l: nat): nat {
    var a := if size * 2 == 0 then 512 else size * 2;
    if l > a then l + 16 * 1024 else a
  }

  /** `thrown` stands for an exception in flight: from then on nothing is appended. */
  class BufBuilder {
    var data: array<byte>
    var l: nat
    var thrown: bool

    ghost predicate Valid()
      reads this
    {
      !thrown ==> l <= data.Length <= MAX_BUFFER
    }

    ghost function Contents(): seq<byte>
      requires Valid() && !thrown
      reads this, data
    {
      data[..l]
    }

    constructor (initsize: nat)
      requires initsize <= MAX_BUFFER
      ensures Valid() && !thrown && Contents() == [] && fresh(data)
    {
      data := new byte[initsize];
      l := 0;
      thrown := false;
    }

    method Grow(n: nat)
      requires Valid()
      modifies this
      ensures Valid() && (data == old(data) || fresh(data)) && l >= old(l)
      ensures old(thrown) ==> thrown
      ensures !thrown ==> l == old(l) + n && Contents()[..old(l)] == old(Contents())
      ensures !thrown && l <= old(data.Length) ==> data == old(data)
      ensures !thrown && l > old(data.Length) ==> data.Length == NewCapacity(old(data.Length), l)
      ensures thrown && !old(thrown) ==>
                old(data.Length) < old(l) + n && NewCapacity(old(data.Length), old(l) + n) > MAX_BUFFER
      ensures thrown && !old(thrown) ==> old(l) + n > MAX_BUFFER / 2
    {
      if thrown {
        return;
      }
      var oldlen := l;
      l := l + n;
      if l > data.Length {
        var a := NewCapacity(data.Length, l);
        if a > MAX_BUFFER {
          thrown := true;
          return;
        }
        var grown := new byte[a];
        forall i | 0 <= i < oldlen {
          grown[i] := data[i];
        }
        data := grown;
      }
    }

    /** `appendBuf`; `appendNum` and `appendStr` store their bytes the same way. */
    method AppendBuf(src: seq<byte>)
      requires Valid()
      modifies this, data
      ensures Valid() && (data == old(data) || fresh(data)) && l >= old(l)
      ensures old(thrown) ==> thrown
      ensures !thrown ==> Contents() == old(Contents()) + src
      ensures thrown && !old(thrown) ==> old(l) + |src| > MAX_BUFFER / 2
    {
      var at := l;
      Grow(|src|);
      if thrown {
        return;
      }
      forall i | 0 <= i < |src| {
        data[at + i] := src[i];
      }
    }

    /** `*((int*)(buf() + at)) = v`. */
    method Patch(at: nat, v: nat)
      requires Valid() && !thrown && at + 4 <= l && v < INT_LIMIT
      modifies data
      ensures Contents() == old(Contents())[..at] + Le4(v) + old(Contents())[at + 4..]
    {
      var w := Le4(v);
      data[at], data[at + 1], data[at + 2], data[at + 3] := w[0], w[1], w[2], w[3];
    }
  }

  class ObjBuilder {
    const b: BufBuilder
    const offset: nat
    var doneCalled: bool

    /** A builder on the buffer of an enclosing one. */
    constructor (base: BufBuilder)
      requires base.Valid()
      modifies base
      ensures b == base && offset == old(base.l) && !doneCalled
      ensures base.Valid() && (base.data == old(base.data) || fresh(base.data))
      ensures old(base.thrown) ==> base.thrown
      ensures !base.thrown ==> base.l == offset + 4 && base.Contents()[..offset] == old(base.Contents())
      ensures base.thrown && !old(base.thrown) ==> offset + 4 > MAX_BUFFER / 2
    {
      b := base;
      offset := base.l;
      doneCalled := false;
      new;
      base.Grow(4);
    }

    /** `_done`: the final NUL, and the size into the room left for it. */
    method Done()
      requires b.Valid() && (!b.thrown ==> offset + 4 <= b.l)
      modifies this, b, b.data
      ensures b.Valid() && (b.data == old(b.data) || fresh(b.data)) && doneCalled
      ensures old(b.thrown) ==> b.thrown
      ensures !b.thrown ==>
                b.Contents() == if old(doneCalled) then old(b.Contents())
                                else old(b.Contents())[..offset] + Le4(old(b.l) + 1 - offset)
                                     + old(b.Contents())[offset + 4..] + NUL
      ensures b.thrown && !old(b.thrown) ==> old(b.l) + 1 > MAX_BUFFER / 2
    {
      if doneCalled {
        return;
      }
      doneCalled := true;
      ghost var was := if b.thrown then [] else b.Contents();
      b.AppendBuf(NUL);
      if b.thrown {
        return;
      }
      b.Patch(offset, b.l - offset);
      assert (was + NUL)[offset + 4..] == was[offset + 4..] + NUL;
      assert (was + NUL)[..offset] == was[..offset];
    }
  }

  /** The buffer grew by `bytes`, unless it threw, which takes more than half of the maximum. */
  twostate predicate Grew(b: BufBuilder, bytes: seq<byte>)
    requires old(b.Valid())
    reads b, b.data
  {
    && b.Valid()
    && (old(b.thrown) ==> b.thrown)
    && (!b.thrown ==> b.Contents() == old(b.Contents()) + bytes)
    && (b.thrown && !old(b.thrown) ==> old(b.l) + |bytes| > MAX_OBJECT + 4)
  }

  /** Type byte and field name, as every `append` starts. */
  method AppendHead(b: BufBuilder, t: byte, name: CString)
    requires b.Valid()
    modifies b, b.data
    ensures b.data == old(b.data) || fresh(b.data)
    ensures Grew(b, [t] + (name + NUL))
  {
    b.AppendBuf([t]);
    b.AppendBuf(name + NUL);
  }

  /** `appendNum(size + 1)` and `appendStr`. */
  method AppendText(b: BufBuilder, t: seq<byte>)
    requires b.Valid()
    modifies b, b.data
    ensures b.data == old(b.data) || fresh(b.data)
    ensures Grew(b, EncText(t))
  {
    b.AppendBuf(Le4(|t| + 1));
    b.AppendBuf(t + NUL);
  }

  /** The `append` for a field; nested objects and arrays are built in place, in the same buffer. */
  method AppendField(b: BufBuilder, f: Field)
    requires b.Valid()
    modifies b, b.data
    ensures b.data == old(b.data) || fresh(b.data)
    ensures Grew(b, EncField(f))
    decreases f, 0
  {
    AppendHead(b, TypeOf(f.value), f.name);
    AppendValue(b, f.value);
  }

  method AppendRegEx(b: BufBuilder, p: CString, o: CString)
    requires b.Valid()
    modifies b, b.data
    ensures b.data == old(b.data) || fresh(b.data)
    ensures Grew(b, EncValue(RegEx(p, o)))
  {
    b.AppendBuf(p + NUL);
    b.AppendBuf(o + NUL);
    assert (p + NUL) + (o + NUL) == p + (NUL + (o + NUL));
  }

  method AppendDBRef(b: BufBuilder, ns: seq<byte>, id: OidBytes)
    requires b.Valid()
    modifies b, b.data
    ensures b.data == old(b.data) || fresh(b.data)
    ensures Grew(b, EncValue(DBRef(ns, id)))
  {
    hide EncText;
    AppendText(b, ns);
    b.AppendBuf(id);
  }

  method AppendBinData(b: BufBuilder, subtype: byte, bin: seq<byte>)
    requires b.Valid()
    modifies b, b.data
    ensures b.data == old(b.data) || fresh(b.data)
    ensures Grew(b, EncValue(BinData(subtype, bin)))
  {
    hide Le4;
    b.AppendBuf(Le4(|bin|));
    b.AppendBuf([subtype]);
    b.AppendBuf(bin);
  }

  /** `appendCodeWScope`, with the scope already built. */
  method AppendCode(b: BufBuilder, c: CString, scope: Doc, obj: seq<byte>)
    requires b.Valid() && obj == EncDoc(scope)
    modifies b, b.data
    ensures b.data == old(b.data) || fresh(b.data)
    ensures Grew(b, EncValue(CodeWScope(c, scope)))
  {
    hide Le4, EncText, EncDoc;
    b.AppendBuf(Le4(4 + 4 + |c| + 1 + |obj|));
    AppendText(b, c);
    b.AppendBuf(obj);
  }

  method AppendValue(b: BufBuilder, v: Value)
    requires b.Valid()
    modifies b, b.data
    ensures b.data == old(b.data) || fresh(b.data)
    ensures Grew(b, EncValue(v))
    decreases v, 0
  {
    match v
    case Object(d) => AppendNested(b, d);
    case Array(d) => AppendNested(b, d);
    case CodeWScope(c, scope) =>
      var obj := Built(scope);
      if obj.None? {
        b.thrown := true;
        CodeSplit(c, scope);
        return;
      }
      AppendCode(b, c, scope, obj.value);
    case _ => AppendScalar(b, v);
  }

  method AppendScalar(b: BufBuilder, v: Value)
    requires b.Valid() && !v.Object? && !v.Array? && !v.CodeWScope?
    modifies b, b.data
    ensures b.data == old(b.data) || fresh(b.data)
    ensures Grew(b, EncValue(v))
  {
    hide Le4, Le8, EncText;
    match v
    case MinKey | Undefined | Null | MaxKey =>
    case Str(t) => AppendText(b, t);
    case Code(t) => AppendText(b, t);
    case Symbol(t) => AppendText(b, t);
    case BinData(subtype, data) => AppendBinData(b, subtype, data);
    case RegEx(p, o) => AppendRegEx(b, p, o);
    case DBRef(ns, id) => AppendDBRef(b, ns, id);
    case Double(bits) => b.AppendBuf(bits);
    case Oid(id) => b.AppendBuf(id);
    case Bool(x) => b.AppendBuf([if x then 1 else 0]);
    case Date(m) => b.AppendBuf(Le8(m));
    case Int(i) => b.AppendBuf(Le4(i));
    case Timestamp(m) => b.AppendBuf(Le8(m));
    case Long(l) => b.AppendBuf(Le8(l));
  }

  method AppendNested(b: BufBuilder, d: Doc)
    requires b.Valid()
    modifies b, b.data
    ensures b.data == old(b.data) || fresh(b.data)
    ensures Grew(b, EncDoc(d))
    decreases d, 2
  {
    hide EncDoc, EncBody, Le4;
    var sub := new ObjBuilder(b);
    ghost var open := if b.thrown then [] else b.Contents();
    DocSize(d);
    AppendAll(b, d);
    if !b.thrown {
      Assembled(old(b.Contents()), open, d);
    }
    sub.Done();
  }

  lemma DocSize(d: Doc)
    ensures |EncDoc(d)| == |EncBody(d)| + 5
  {
  }

  /** The length goes into the room left at the start, the NUL behind the elements. */
  lemma Assembled(was: seq<byte>, open: seq<byte>, d: Doc)
    requires |open| == |was| + 4 && open[..|was|] == was
    ensures var c := open + EncBody(d);
            c[..|was|] + Le4(|c| + 1 - |was|) + c[|was| + 4..] + NUL == was + EncDoc(d)
  {
    hide Le4, EncBody;
    var c := open + EncBody(d);
    assert c[|was| + 4..] == EncBody(d) && c[..|was|] == was;
  }

  method AppendAll(b: BufBuilder, d: Doc)
    requires b.Valid()
    modifies b, b.data
    ensures b.data == old(b.data) || fresh(b.data)
    ensures Grew(b, EncBody(d))
    decreases d, 1
  {
    var i := 0;
    while i < |d|
      invariant 0 <= i <= |d|
      invariant b.Valid() && (b.data == old(b.data) || fresh(b.data))
      invariant Grew(b, EncBody(d[..i]))
    {
      EncBodyConcat(d[..i], [d[i]]);
      EncBodyOne(d[i]);
      assert d[..i + 1] == d[..i] + [d[i]];
      AppendField(b, d[i]);
      i := i + 1;
    }
    assert d[..|d|] == d;
  }

  /** `obj()` of the builder behind the reference count, once it is done. */
  method TakeObject(b: BufBuilder, ghost d: Doc) returns (r: Option<seq<byte>>)
    requires b.Valid()
    requires if b.thrown then |EncDoc(d)| > MAX_OBJECT else b.l >= 4 && b.Contents()[4..] == EncDoc(d)
    ensures r == if |EncDoc(d)| <= MAX_OBJECT then Some(EncDoc(d)) else None
  {
    if b.thrown {
      return None;
    }
    var bytes := b.data[..b.l];
    OwnObject(bytes, d);
    hide EncDoc, Int4;
    var size := Int4(bytes[4..8]);
    return if 0 < size <= MAX_OBJECT then Some(bytes[4..4 + size]) else None;
  }

  /** The object behind the reference count. */
  lemma OwnObject(s: seq<byte>, d: Doc)
    requires |s| >= 4 && s[4..] == EncDoc(d) && |EncDoc(d)| < INT_LIMIT
    ensures |s| == 4 + |EncDoc(d)| >= 9 && Int4(s[4..8]) == |EncDoc(d)| && s[4..4 + |EncDoc(d)|] == EncDoc(d)
  {
    hide EncDoc;
    DocHead(d, []);
    assert EncDoc(d) + [] == EncDoc(d);
    assert s[4..8] == EncDoc(d)[..4];
  }

  /**
   A builder of one's own, and `obj()`: the bytes of the document exactly when they are not too many,
   and these are the bytes the grammar of the specification has for it.
   */
  method Built(d: Doc) returns (r: Option<seq<byte>>)
    ensures r == if |EncDoc(d)| <= MAX_OBJECT then Some(EncDoc(d)) else None
    ensures r.Some? ==> BsonGrammar.IsDocument(r.value, d)
    decreases d, 3
  {
    if |EncDoc(d)| <= MAX_OBJECT {
      BsonGrammar.DocumentBytes(EncDoc(d), d);
    }
    hide EncDoc, Le4, Int4;
    var b := new BufBuilder(512 + 4);
    b.AppendBuf(Le4(0));
    AppendNested(b, d);
    r := TakeObject(b, d);
  }
}
