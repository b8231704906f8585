/** What `valid` guarantees of arbitrary bytes, and the one thing a reader might expect that it does not. */
module BsonSound {
  import opened Bytes
  import opened BsonTypes
  import opened BsonEncoding
  import opened BsonValid

  /** The bytes of the elements one after the other. */
  function Flat(es: seq<seq<byte>>): seq<byte> {
    if es == [] then [] else es[0] + Flat(es[1..])
  }

  /** How long the value of each type must be, going by what stands at its start. */
  predicate Sized(t: byte, v: seq<byte>) {
    if t in {6, 10, 127, 255} then v == []
    else if t == 8 then |v| == 1
    else if t == 16 then |v| == 4
    else if t in {1, 9, 17, 18} then |v| == 8
    else if t == 7 then |v| == 12
    else if t in {2, 13, 14} then |v| >= 4 && |v| == 4 + Int4(v[..4])
    else if t == 12 then |v| >= 4 && |v| == 4 + Int4(v[..4]) + 12
    else if t in {3, 4, 15} then |v| >= 4 && |v| == Int4(v[..4])
    else t == 5 || t == 11
  }

  /** Strings end with a NUL where their length says, and are not empty or too long. */
  predicate Terminated(t: byte, v: seq<byte>) {
    t in {2, 12, 13, 14} ==>
        |v| >= 5 && 0 < Int4(v[..4]) < MAX_OBJECT && 4 + Int4(v[..4]) <= |v| && v[3 + Int4(v[..4])] == 0
  }

  /** An element: a type, a name with its NUL, and a value that fits its type. */
  predicate Sound(e: seq<byte>) {
    exists k: nat :: k + 2 <= |e| && SoundAt(e, k)
  }

  predicate SoundAt(e: seq<byte>, k: nat)
    requires k + 2 <= |e|
  {
    var t, v := e[0], e[k + 2..];
    && t != 0 && e[k + 1] == 0 && 0 !in e[1..k + 1]
    && Sized(t, v) && Terminated(t, v)
    && (t in {3, 4} ==> ValidDoc(v))
  }

  /** The object is its length, sound elements, and a final NUL, with nothing between. */
  predicate Tiles(b: seq<byte>, es: seq<seq<byte>>) {
    && |b| >= 4 && 5 <= Int4(b[..4]) <= |b| && Int4(b[..4]) <= MAX_OBJECT
    && b[4..Int4(b[..4])] == Flat(es) + [0]
    && forall i :: 0 <= i < |es| ==> Sound(es[i])
  }

  lemma HeadOfRest(v: seq<byte>, n: nat)
    requires 4 <= n <= |v|
    ensures Int4(v[..n][..4]) == Int4(v[..4])
  {
    assert v[..n][..4] == v[..4];
  }

  /** The size computed from the bytes behind an element's name leaves a value of the size its type has. */
  lemma SizedBy(t: byte, w: seq<byte>, n: nat)
    requires n <= |w| && t != 0 && t != 11 && ValueSize(t, w) == Some(n) && Validated(t, w[..n])
    requires t in {3, 4} ==> ValidDoc(w[..n])
    ensures Sized(t, w[..n])
  {
    hide ValidDoc, Int4;
    assert t in {3, 4} ==> |w[..n]| >= 4 by { NestedLong(t, w[..n]); }
    if n >= 4 {
      HeadOfRest(w, n);
    }
  }

  lemma NestedLong(t: byte, v: seq<byte>)
    ensures ValidDoc(v) ==> |v| >= 4
  {
  }

  lemma ValidElementSound(s: seq<byte>, n: nat)
    requires s != [] && s[0] != 0 && CheckedSize(s) == Some(n) && 0 < n <= |s| && ValidElement(s[..n])
    ensures Sound(s[..n])
  {
    var e := s[..n];
    var k := Strlen(e[1..]);
    assert k + 2 <= |e|;
    SameName(s, n);
    assert s[k + 2..][..n - k - 2] == e[k + 2..];
    assert e[1..][..k] == e[1..k + 1] && e[1..][k] == e[k + 1];
    hide Strlen, ValueSize, ValidDoc, Int4, Sized;
    if e[0] != 11 {
      SizedBy(e[0], s[k + 2..], n - k - 2);
    } else {
      RegExSized(e[k + 2..]);
    }
    assert Terminated(e[0], e[k + 2..]) by { TerminatedBy(e[0], e[k + 2..]); }
    assert SoundAt(e, k);
  }

  lemma RegExSized(v: seq<byte>)
    ensures Sized(11, v)
  {
  }

  lemma TerminatedBy(t: byte, v: seq<byte>)
    requires Validated(t, v)
    ensures Terminated(t, v)
  {
  }

  /** Cutting the bytes behind an element leaves its name. */
  lemma SameName(s: seq<byte>, n: nat)
    requires 0 < n <= |s| && Strlen(s[1..n]) + 2 <= n
    ensures s[..n][1..] == s[1..n] && Strlen(s[1..]) == Strlen(s[1..n])
  {
    var k := Strlen(s[1..n]);
    assert forall i :: 0 <= i < k ==> s[1..][i] == s[1..n][i];
    assert s[1..][k] == s[1..n][k];
    StrlenIs(s[1..], k);
  }

  lemma {:induction false} StrlenIs(s: seq<byte>, k: nat)
    requires k < |s| && s[k] == 0 && forall i :: 0 <= i < k ==> s[i] != 0
    ensures Strlen(s) == k
  {
    if k > 0 {
      StrlenIs(s[1..], k - 1);
    }
  }

  lemma {:induction false} ValidBodyTiles(s: seq<byte>) returns (es: seq<seq<byte>>)
    requires ValidBody(s)
    ensures s == Flat(es) + [0] && forall i :: 0 <= i < |es| ==> Sound(es[i])
    decreases |s|
  {
    BodyHead(s);
    hide *;
    if s[0] == 0 {
      es := [];
    } else {
      var n := FirstValid(s);
      ValidElementSound(s, n);
      var rest := ValidBodyTiles(s[n..]);
      es := [s[..n]] + rest;
      FlatMore(s, n, rest);
    }
  }

  lemma BodyHead(s: seq<byte>)
    requires ValidBody(s)
    ensures s != [] && (s[0] == 0 ==> s == Flat([]) + [0])
  {
    hide CheckedSize, ValidElement;
  }

  lemma FirstValid(s: seq<byte>) returns (n: nat)
    requires ValidBody(s) && s != [] && s[0] != 0
    ensures 0 < n <= |s| && CheckedSize(s) == Some(n) && ValidElement(s[..n]) && ValidBody(s[n..])
  {
    hide CheckedSize, ValidElement;
    n := CheckedSize(s).value;
  }

  lemma FlatMore(s: seq<byte>, n: nat, es: seq<seq<byte>>)
    requires n <= |s| && s[n..] == Flat(es) + [0]
    ensures s == Flat([s[..n]] + es) + [0]
  {
    assert ([s[..n]] + es)[1..] == es && s == s[..n] + s[n..];
  }

  /** Whatever `valid` accepts is made of sound elements, and of nothing else. */
  lemma ValidIsTiled(b: seq<byte>) returns (es: seq<seq<byte>>)
    requires ValidDoc(b)
    ensures Tiles(b, es)
  {
    hide Sound;
    es := ValidBodyTiles(b[4..Int4(b[..4])]);
  }

  /**
   But a binary value may have a negative length: these bytes are valid, and there is no document
   they could be read as.
   */
  lemma ValidButUnreadable()
    ensures var b := [12, 0, 0, 0, 5, 0x61, 0, 255, 255, 255, 255, 0]; ValidDoc(b) && ReadDoc(b) == None
  {
    var b: seq<byte> := [12, 0, 0, 0, 5, 0x61, 0, 255, 255, 255, 255, 0];
    var s, e, v: seq<byte> := [5, 0x61, 0, 255, 255, 255, 255, 0], [5, 0x61, 0, 255, 255, 255, 255],
        [255, 255, 255, 255];
    assert b[..4] == [12, 0, 0, 0] && b[4..12] == s;
    assert s[1..] == [0x61, 0, 255, 255, 255, 255, 0] && e[1..] == [0x61, 0, 255, 255, 255, 255];
    StrlenIs(s[1..], 1);
    StrlenIs(e[1..], 1);
    assert s[3..][..4] == v && Int4(v) == -1;
    assert s[..7] == e && e[3..] == v && s[7..] == [0] && v[..4] == v;
    hide Strlen;
    assert ElementSize(s) == Some(7);
    assert ValueSize(5, v) == Some(4);
    assert ReadField(e) == None;
    assert ValidElement(e);
    assert ValidBody([0]);
  }
}
