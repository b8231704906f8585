/** `BSONObjIterator` as a cursor over a document's bytes, and the loops that walk with it. */
module BsonIterator {
  import opened Bytes
  import opened BsonTypes
  import opened BsonBuilder
  import opened BsonEncoding
  import opened BsonValid

  class ObjIterator {
    const obj: seq<byte>
    const theend: nat
    var pos: nat

    ghost predicate Valid()
      reads this
    {
      theend < |obj| && pos <= theend + 1
    }

    /** What is still to be read, the final byte included. */
    ghost function Rest(): seq<byte>
      requires Valid()
      reads this
    {
      obj[pos..theend + 1]
    }

    constructor (b: seq<byte>)
      requires |b| >= 4 && 5 <= Int4(b[..4]) <= |b|
      ensures Valid() && Rest() == b[4..Int4(b[..4])]
    {
      obj := b;
      pos := 4;
      theend := Int4(b[..4]) - 1;
    }

    method More() returns (r: bool)
      requires Valid()
      ensures r <==> |Rest()| > 1
    {
      r := pos < theend;
    }

    method MoreWithEoo() returns (r: bool)
      requires Valid()
      ensures r <==> |Rest()| > 0
    {
      r := pos <= theend;
    }

    /**
     `next`: the bytes of the element at the cursor, and the cursor behind them; `None` when the size
     throws or is one that would not leave the cursor within the object.
     */
    method Next(checkEnd: bool) returns (e: Option<seq<byte>>)
      requires Valid() && |Rest()| > 0
      modifies this
      ensures Valid()
      ensures var rest := old(Rest());
              match if checkEnd then CheckedSize(rest) else ElementSize(rest)
              case Some(n) => if 0 < n <= |rest| then e == Some(rest[..n]) && Rest() == rest[n..] else e.None?
              case None => e.None?
    {
      var rest := obj[pos..theend + 1];
      var size := if checkEnd then CheckedSize(rest) else ElementSize(rest);
      if size.None? || !(0 < size.value <= |rest|) {
        return None;
      }
      pos := pos + size.value;
      return Some(rest[..size.value]);
    }
  }

  function Prefixed(acc: Doc, o: Option<Doc>): Option<Doc> {
    MapSome(o, d => acc + d)
  }

  predicate HasField(s: seq<byte>, n: int, f: Field) {
    0 < n <= |s| && ElementSize(s) == Some(n) && ReadField(s[..n]) == Some(f)
  }

  /** One turn of the loop is one unfolding of `ReadBody`. */
  lemma ReadBodyTakes(s: seq<byte>, n: int, f: Field, acc: Doc)
    requires |s| > 1 && HasField(s, n, f)
    ensures Prefixed(acc, ReadBody(s)) == Prefixed(acc + [f], ReadBody(s[n..]))
  {
    hide ElementSize, ReadField;
    var rest := ReadBody(s[n..]);
    assert ReadBody(s) == MapSome(rest, d => [f] + d);
    if rest.Some? {
      assert acc + ([f] + rest.value) == acc + [f] + rest.value;
    }
  }

  lemma ReadBodyStops(s: seq<byte>, acc: Doc)
    requires |s| > 1 && forall n, f :: !HasField(s, n, f)
    ensures Prefixed(acc, ReadBody(s)) == None
  {
    hide ElementSize, ReadField;
    if ElementSize(s).Some? && 0 < ElementSize(s).value <= |s| {
      var n := ElementSize(s).value;
      if ReadField(s[..n]).Some? {
        assert HasField(s, n, ReadField(s[..n]).value);
      }
    }
  }

  /** `while (it.more()) it.next()`: all fields of a document. */
  method Iterate(b: seq<byte>) returns (r: Option<Doc>)
    ensures r == ReadDoc(b)
  {
    if |b| < 4 || Int4(b[..4]) < 5 || Int4(b[..4]) > |b| {
      return None;
    }
    var it := new ObjIterator(b);
    hide ReadBody, ElementSize, ReadField, Prefixed, Int4;
    var acc: Doc := [];
    NothingPrefixed(ReadBody(it.Rest()));
    var more := it.More();
    while more
      invariant it.Valid() && more == (|it.Rest()| > 1)
      invariant Prefixed(acc, ReadBody(it.Rest())) == ReadDoc(b)
      decreases |it.Rest()|
    {
      ghost var s := it.Rest();
      var e := it.Next(false);
      if e.None? {
        ReadBodyStops(s, acc);
        return None;
      }
      var f := ReadField(e.value);
      if f.None? {
        ReadBodyStops(s, acc);
        return None;
      }
      ReadBodyTakes(s, |e.value|, f.value, acc);
      acc := acc + [f.value];
      more := it.More();
    }
    NothingLeft(it.Rest(), acc);
    return Some(acc);
  }

  lemma NothingLeft(s: seq<byte>, acc: Doc)
    requires |s| <= 1
    ensures Prefixed(acc, ReadBody(s)) == Some(acc)
  {
    assert acc + [] == acc;
  }

  lemma NothingPrefixed(o: Option<Doc>)
    ensures Prefixed([], o) == o
  {
    if o.Some? {
      assert [] + o.value == o.value;
    }
  }

  lemma ValidBodyStep(s: seq<byte>)
    requires s != []
    ensures match CheckedSize(s)
            case None => !ValidBody(s)
            case Some(n) =>
              if !(0 < n <= |s|) then !ValidBody(s)
              else if s[0] == 0 then n == 1 && (ValidBody(s) <==> |s| == 1)
              else ValidBody(s) <==> ValidElement(s[..n]) && ValidBody(s[n..])
  {
    hide ElementSize, ValidElement, RegExSpan;
  }

  /** `valid`, its loop over checked elements. */
  method IsValid(b: seq<byte>) returns (ok: bool)
    ensures ok == ValidDoc(b)
    decreases |b|, 1
  {
    if |b| < 4 || Int4(b[..4]) < 5 || Int4(b[..4]) > |b| || Int4(b[..4]) > MAX_OBJECT {
      return false;
    }
    var it := new ObjIterator(b);
    hide ValidBody, CheckedSize, ValidElement, Int4;
    var more := it.MoreWithEoo();
    while more
      invariant it.Valid() && more == (|it.Rest()| > 0) && |it.Rest()| < |b|
      invariant ValidBody(it.Rest()) == ValidDoc(b)
      decreases |it.Rest()|
    {
      ValidBodyStep(it.Rest());
      var e := it.Next(true);
      if e.None? {
        return false;
      }
      if e.value[0] == 0 {
        more := it.MoreWithEoo();
        return !more;
      }
      var el := IsValidElement(e.value);
      if !el {
        return false;
      }
      more := it.MoreWithEoo();
    }
    return false;
  }

  /** `e.validate()`, and `valid()` of the document inside, if there is one. */
  method IsValidElement(e: seq<byte>) returns (ok: bool)
    requires e != []
    ensures ok == ValidElement(e)
    decreases |e|, 0
  {
    var k := Strlen(e[1..]);
    if k + 2 > |e| || !Validated(e[0], e[k + 2..]) {
      return false;
    }
    var v := e[k + 2..];
    if e[0] == 3 || e[0] == 4 {
      ok := IsValid(v);
    } else if e[0] == 15 {
      ok := IsValid(v[8 + Int4(v[4..8])..]);
    } else {
      ok := true;
    }
  }

  /**
   Building a document and walking over the result: whenever the build succeeds, iterating gives the
   same document back and `valid` holds; and it succeeds exactly up to the maximum object size.
   */
  method BuildAndRead(d: Doc) returns (bytes: Option<seq<byte>>, back: Option<Doc>, ok: bool)
    ensures bytes.Some? <==> |EncDoc(d)| <= MAX_OBJECT
    ensures bytes.Some? ==> bytes.value == EncDoc(d) && back == Some(d) && ok
  {
    hide EncDoc, ReadDoc, ValidDoc;
    back, ok := None, false;
    bytes := Built(d);
    if bytes.Some? {
      ReadDocRight(d, []);
      ValidDocRight(d);
      assert EncDoc(d) + [] == EncDoc(d);
      back := Iterate(bytes.value);
      ok := IsValid(bytes.value);
    }
  }
}
