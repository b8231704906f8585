/**
 Streaming MD5: how a message that arrives in pieces reaches the compression function. The function
 itself (`md5_process`) is a parameter of everything here.
 */
module Md5 {
  import opened Bytes

  type Word = x: int | 0 <= x < WORD

  /** The four registers. */
  type Words = s: seq<Word> | |s| == 4 witness [0, 0, 0, 0]

  type Compression = (Words, seq<byte>) -> Words

  const BLOCK: nat := 64

  /** RFC 1321, section 3.3. */
  const INIT: Words := [0x67452301, 0xefcdab89, 0x98badcfe, 0x10325476]

  /** RFC 1321, section 3.4: every whole block of a message in turn. */
  function Blocks(p: Compression, s: Words, m: seq<byte>): Words
    decreases |m|
  {
    if |m| < BLOCK then s else Blocks(p, p(s, m[..BLOCK]), m[BLOCK..])
  }

  function Whole(n: nat): (k: nat)
    ensures k <= n && k % BLOCK == 0 && n - k < BLOCK && n - k == n % BLOCK
  {
    n / BLOCK * BLOCK
  }

  /** The bytes not yet in a whole block. */
  function Tail(m: seq<byte>): (t: seq<byte>)
    ensures |t| == |m| % BLOCK
  {
    m[Whole(|m|)..]
  }

  /** Blocks of a whole number of blocks first, then of what follows. */
  lemma {:induction false} BlocksConcat(p: Compression, s: Words, a: seq<byte>, b: seq<byte>)
    requires |a| % BLOCK == 0
    ensures Blocks(p, s, a + b) == Blocks(p, Blocks(p, s, a), b)
    decreases |a|
  {
    if a == [] {
      assert a + b == b;
    } else {
      assert (a + b)[..BLOCK] == a[..BLOCK] && (a + b)[BLOCK..] == a[BLOCK..] + b;
      BlocksConcat(p, p(s, a[..BLOCK]), a[BLOCK..], b);
    }
  }

  lemma SplitTail(m: seq<byte>)
    ensures m == m[..Whole(|m|)] + Tail(m)
  {
  }

  /** More bytes act on the registers and the pending bytes alone, not on the message before them. */
  lemma BlocksOfTail(p: Compression, m: seq<byte>, d: seq<byte>)
    ensures Blocks(p, INIT, m + d) == Blocks(p, Blocks(p, INIT, m), Tail(m) + d)
    ensures Tail(m + d) == Tail(Tail(m) + d)
  {
    hide Blocks, Tail, Whole;
    var a, t := m[..Whole(|m|)], Tail(m);
    SplitTail(m);
    assert m + d == a + (t + d);
    BlocksConcat(p, INIT, a, t + d);
    BlocksConcat(p, INIT, a, t);
    ShortTail(p, Blocks(p, INIT, a), t);
    TailSkips(a, t + d);
  }

  lemma TailSkips(a: seq<byte>, s: seq<byte>)
    requires |a| % BLOCK == 0
    ensures Tail(a + s) == Tail(s)
  {
    WholeShifted(|a|, |s|);
    assert (a + s)[|a| + Whole(|s|)..] == s[Whole(|s|)..];
  }

  lemma BlockStep(p: Compression, s: Words, x: seq<byte>)
    requires |x| >= BLOCK
    ensures Blocks(p, s, x) == Blocks(p, p(s, x[..BLOCK]), x[BLOCK..])
  {
  }

  lemma ShortTail(p: Compression, s: Words, t: seq<byte>)
    requires |t| < BLOCK
    ensures Blocks(p, s, t) == s
  {
  }

  lemma WholeShifted(w: nat, n: nat)
    requires w % BLOCK == 0
    ensures Whole(w + n) == w + Whole(n)
  {
  }

  // ---- The bit count in two words ----

  /** Adding `n` bytes to the count, as `md5_append` does it, with a carry between the words. */
  function Added(c: (Word, Word), n: nat): (Word, Word)
    requires n < INT_LIMIT
  {
    var nbits := n * 8 % WORD;
    var hi := (c.1 + n / 0x2000_0000) % WORD;
    var lo := (c.0 + nbits) % WORD;
    (lo, if lo < nbits then (hi + 1) % WORD else hi)
  }

  function Joined(c: (Word, Word)): nat {
    c.0 + WORD * c.1
  }

  /** The two words hold eight times the number of bytes, modulo 2^64. */
  lemma CountRight(c: (Word, Word), len: nat, n: nat)
    requires n < INT_LIMIT && Joined(c) == len * 8 % DWORD
    ensures Joined(Added(c, n)) == (len + n) * 8 % DWORD
  {
    var nbits, up := n * 8 % WORD, n / 0x2000_0000;
    assert n * 8 == up * WORD + nbits;
    var r := Added(c, n);
    var carry := if c.0 + nbits >= WORD then 1 else 0;
    assert r.0 == c.0 + nbits - carry * WORD;
    assert (r.0 < nbits) <==> carry == 1;
    SumMod(c.1, up, carry);
    var sum := c.1 + up + carry;
    assert r.1 == sum % WORD;
    assert Joined(c) + n * 8 == r.0 + WORD * sum;
    JoinedMod(r.0, sum);
    assert (len + n) * 8 == len * 8 + n * 8;
    ModSum(len * 8, n * 8);
  }

  lemma SumMod(a: nat, b: nat, carry: nat)
    requires carry <= 1
    ensures (if carry == 1 then ((a + b) % WORD + 1) % WORD else (a + b) % WORD) == (a + b + carry) % WORD
  {
  }

  lemma JoinedMod(lo: Word, hi: nat)
    ensures (lo + WORD * hi) % DWORD == lo + WORD * (hi % WORD)
  {
    assert hi == hi / WORD * WORD + hi % WORD;
    assert lo + WORD * hi == hi / WORD * DWORD + (lo + WORD * (hi % WORD));
    ModUnique(hi / WORD, lo + WORD * (hi % WORD));
  }

  lemma ModUnique(q: nat, r: nat)
    requires r < DWORD
    ensures (q * DWORD + r) % DWORD == r
  {
  }

  lemma ModSum(a: nat, b: nat)
    ensures (a % DWORD + b) % DWORD == (a + b) % DWORD
  {
  }

  // ---- md5_append, md5_finish ----

  class State {
    const process: Compression
    const buf: array<byte>
    var count0: Word
    var count1: Word
    var abcd: Words

    /** Everything appended so far. */
    ghost var message: seq<byte>

    /** Registers, count and pending bytes are what the message alone determines. */
    ghost predicate Valid()
      reads this, buf
    {
      && buf.Length == BLOCK
      && abcd == Blocks(process, INIT, message)
      && Joined((count0, count1)) == |message| * 8 % DWORD
      && buf[..|message| % BLOCK] == Tail(message)
    }

    /** `md5_init`. */
    constructor (p: Compression)
      ensures process == p && fresh(buf) && Valid() && message == []
    {
      process := p;
      buf := new byte[BLOCK];
      count0, count1 := 0, 0;
      abcd := INIT;
      message := [];
    }

    /** `md5_append`; its sum of offset and `nbytes` must be an `int`. */
    method Append(data: seq<byte>, nbytes: int)
      requires nbytes <= |data| && Valid()
      requires 0 < nbytes ==> |message| % BLOCK + nbytes < INT_LIMIT
      modifies this, buf
      ensures Valid() && message == old(message) + if nbytes <= 0 then [] else data[..nbytes]
    {
      if nbytes <= 0 {
        return;
      }
      ghost var m, d, t := message, data[..nbytes], Tail(message);
      OffsetOf(count0, count1, |m|);
      CountRight((count0, count1), |m|, nbytes);
      BlocksOfTail(process, m, d);
      hide Joined, Added, Blocks, Tail;
      var offset := count0 / 8 % BLOCK;
      var c := Added((count0, count1), nbytes);
      count0, count1 := c.0, c.1;
      message := m + d;
      TakeIn(data, nbytes, offset, t, d);
      SameRest(|m|, nbytes);
    }

    /** The bytes against the pending ones: a partial block first, then whole blocks, then what is left. */
    method TakeIn(data: seq<byte>, nbytes: nat, offset: nat, ghost t: seq<byte>, ghost d: seq<byte>)
      requires buf.Length == BLOCK && offset < BLOCK && t == buf[..offset]
      requires nbytes <= |data| && d == data[..nbytes]
      modifies `abcd, buf
      ensures abcd == Blocks(process, old(abcd), t + d)
      ensures buf[..(offset + nbytes) % BLOCK] == Tail(t + d)
    {
      hide Blocks, Tail;
      var p, left := 0, nbytes;
      if offset != 0 {
        var copy := if offset + nbytes > BLOCK then BLOCK - offset else nbytes;
        FillBuffer(offset, data, copy);
        assert data[..copy] == d[..copy];
        if offset + copy < BLOCK {
          assert d[..copy] == d;
          ShortTail(process, abcd, t + d);
          WholeTail(t + d);
          return;
        }
        p, left := copy, left - copy;
        PartialBlock(t, d, p, buf[..]);
        BlockStep(process, abcd, t + d);
        abcd := process(abcd, buf[..]);
      } else {
        assert t + d == d[0..];
      }
      FullBlocks(data, p, left, d);
    }

    /** The first `memcpy`: behind the bytes that are pending. */
    method FillBuffer(offset: nat, data: seq<byte>, copy: nat)
      requires buf.Length == BLOCK && offset + copy <= BLOCK && copy <= |data|
      modifies buf
      ensures buf[..offset + copy] == old(buf[..offset]) + data[..copy]
    {
      forall i | 0 <= i < copy {
        buf[offset + i] := data[i];
      }
    }

    /** Whole blocks straight from the data, and the second `memcpy`. */
    method FullBlocks(data: seq<byte>, at: nat, size: nat, ghost d: seq<byte>)
      requires buf.Length == BLOCK && at + size == |d| <= |data| && d == data[..|d|]
      modifies `abcd, buf
      ensures abcd == Blocks(process, old(abcd), d[at..])
      ensures buf[..size % BLOCK] == Tail(d[at..])
    {
      hide Blocks, Tail;
      var p, left := at, size;
      while left >= BLOCK
        invariant at <= p <= |d| && left == |d| - p && left % BLOCK == size % BLOCK
        invariant Blocks(process, abcd, d[p..]) == Blocks(process, old(abcd), d[at..])
        invariant Tail(d[p..]) == Tail(d[at..])
        decreases left
      {
        assert data[p..p + BLOCK] == d[p..][..BLOCK] && d[p..][BLOCK..] == d[p + BLOCK..] by {
          SliceOfSlice(data, 0, |d|, p, p + BLOCK);
          SliceOfSlice(d, p, |d|, 0, BLOCK);
          SliceOfSlice(d, p, |d|, BLOCK, |d| - p);
        }
        TailDrops(d[p..]);
        BlockStep(process, abcd, d[p..]);
        abcd := process(abcd, data[p..p + BLOCK]);
        p, left := p + BLOCK, left - BLOCK;
      }
      forall i | 0 <= i < left {
        buf[i] := data[p + i];
      }
      ShortTail(process, abcd, d[p..]);
      WholeTail(d[p..]);
      assert buf[..left] == d[p..];
    }

    /** `md5_finish`: exactly the padded message of RFC 1321, sections 3.1 and 3.2, is processed. */
    method Finish() returns (digest: seq<byte>)
      requires Valid()
      modifies this, buf
      ensures digest == DigestBytes(Blocks(process, INIT, Padded(old(message))))
    {
      hide Blocks, Tail, WordBytes, DigestBytes, LengthBytes, ZeroCount;
      ghost var m := message;
      var data := WordBytes(count0) + WordBytes(count1);
      CountBytes(count0, count1, |m|);
      var pad := [0x80] + Zeros(BLOCK - 1);
      OffsetOf(count0, count1, |m|);
      var n := (55 - count0 / 8) % WORD % BLOCK + 1;
      PadLength(count0 / 8, |m|);
      assert pad[..n] == [0x80] + Zeros(n - 1);
      Append(pad, n);
      assert data[..8] == data;
      Append(data, 8);
      assert message == Padded(m);
      digest := DigestBytes(abcd);
    }
  }

  lemma WholeTail(s: seq<byte>)
    requires |s| < BLOCK
    ensures Tail(s) == s
  {
  }

  /** The buffer filled up is the first block of what is still to be taken in. */
  lemma PartialBlock(t: seq<byte>, d: seq<byte>, p: nat, b: seq<byte>)
    requires 0 < |t| < BLOCK && |t| + p == BLOCK && p <= |d| && b == t + d[..p]
    ensures (t + d)[..BLOCK] == b && (t + d)[BLOCK..] == d[p..] && |t + d| >= BLOCK
    ensures Tail(d[p..]) == Tail(t + d) && |d[p..]| % BLOCK == |t + d| % BLOCK
  {
    assert (t + d)[BLOCK..] == d[p..];
    TailDrops(t + d);
  }

  lemma OffsetOf(lo: Word, hi: Word, n: nat)
    requires Joined((lo, hi)) == n * 8 % DWORD
    ensures lo / 8 % BLOCK == n % BLOCK
  {
    var q := n * 8 / DWORD;
    assert n * 8 == q * DWORD + (lo + WORD * hi);
    BytesOfBits(n, q * (DWORD / 512) + hi * (WORD / 512), lo);
  }

  lemma BytesOfBits(n: nat, x: nat, lo: nat)
    requires n * 8 == 512 * x + lo
    ensures lo / 8 % BLOCK == n % BLOCK
  {
    assert lo == 8 * (n - 64 * x) && lo / 8 == n - 64 * x;
    assert n % BLOCK == (lo / 8 + BLOCK * x) % BLOCK;
  }

  lemma SameRest(n: nat, k: nat)
    ensures (n + k) % BLOCK == (n % BLOCK + k) % BLOCK
  {
  }

  lemma TailDrops(s: seq<byte>)
    requires |s| >= BLOCK
    ensures Tail(s[BLOCK..]) == Tail(s)
  {
    WholeShifted(BLOCK, |s| - BLOCK);
  }

  // ---- Padding ----

  function Zeros(n: nat): (z: seq<byte>)
    ensures |z| == n
  {
    seq(n, i => 0)
  }

  predicate Congruent56(len: nat) {
    len % BLOCK == 56
  }

  /** How many zeros follow the 0x80: the least number that leaves the length 56 modulo 64. */
  function ZeroCount(len: nat): (k: nat)
    ensures Congruent56(len + 1 + k)
    ensures forall n: nat :: len + 1 <= n < len + 1 + k ==> !Congruent56(n)
  {
    (55 - len) % BLOCK
  }

  /** The bit count modulo 2^64, low word first. */
  function LengthBytes(len: nat): (b: seq<byte>)
    ensures |b| == 8
  {
    var bits := len * 8 % DWORD;
    WordBytes(bits % WORD) + WordBytes(bits / WORD)
  }

  /** RFC 1321, section 3.1 (a one bit, then zeros) and section 3.2 (the length in bits). */
  function Padded(m: seq<byte>): seq<byte> {
    m + ([0x80] + Zeros(ZeroCount(|m|))) + LengthBytes(|m|)
  }

  /** The padded message is a whole number of blocks. */
  lemma PaddedWhole(m: seq<byte>)
    ensures |Padded(m)| % BLOCK == 0 && |m| + 9 <= |Padded(m)| < |m| + 9 + BLOCK
  {
    hide LengthBytes, ZeroCount;
    var n := |m| + 1 + ZeroCount(|m|);
    assert |Padded(m)| == n + 8 && Congruent56(n);
    assert ZeroCount(|m|) < BLOCK by { ZerosFew(|m|); }
  }

  lemma ZerosFew(len: nat)
    ensures ZeroCount(len) < BLOCK
  {
  }

  function DigestBytes(s: Words): seq<byte> {
    WordBytes(s[0]) + WordBytes(s[1]) + WordBytes(s[2]) + WordBytes(s[3])
  }

  /** RFC 1321, section 3.5: the registers one after the other, each low byte first. */
  lemma DigestLowFirst(s: Words)
    ensures var d := DigestBytes(s);
            |d| == 16 && s[0] == LowFirst(d[0..4]) && s[1] == LowFirst(d[4..8])
            && s[2] == LowFirst(d[8..12]) && s[3] == LowFirst(d[12..16])
  {
    hide WordBytes, LowFirst;
    var d := DigestBytes(s);
    assert d[0..4] == WordBytes(s[0]) && d[4..8] == WordBytes(s[1]);
    assert d[8..12] == WordBytes(s[2]) && d[12..16] == WordBytes(s[3]);
    WordLowFirst(s[0]);
    WordLowFirst(s[1]);
    WordLowFirst(s[2]);
    WordLowFirst(s[3]);
  }

  /** RFC 1321, section 3.3: the registers in the form in which it lists them. */
  lemma InitialRegisters()
    ensures DigestBytes(INIT) ==
            [0x01, 0x23, 0x45, 0x67, 0x89, 0xab, 0xcd, 0xef, 0xfe, 0xdc, 0xba, 0x98, 0x76, 0x54, 0x32, 0x10]
  {
    assert WordBytes(0x67452301) == [0x01, 0x23, 0x45, 0x67];
    assert WordBytes(0xefcdab89) == [0x89, 0xab, 0xcd, 0xef];
    assert WordBytes(0x98badcfe) == [0xfe, 0xdc, 0xba, 0x98];
    assert WordBytes(0x10325476) == [0x76, 0x54, 0x32, 0x10];
  }

  /**
   RFC 1321, sections 3.1 and 3.2, byte for byte: the message, 0x80, zeros, and in the last eight
   bytes the length in bits modulo 2^64, low byte first; no longer than that takes.
   */
  lemma PaddedBytes(m: seq<byte>)
    ensures var b, n := Padded(m), |Padded(m)|;
            && |m| + 9 <= n < |m| + 9 + BLOCK && n % BLOCK == 0
            && b[..|m|] == m && b[|m|] == 0x80 && (forall i :: |m| < i < n - 8 ==> b[i] == 0)
            && LowFirst(b[n - 8..]) == |m| * 8 % DWORD
  {
    PaddedWhole(m);
    hide ZeroCount, LowFirst, LengthBytes;
    var b, n := Padded(m), |Padded(m)|;
    assert b[n - 8..] == LengthBytes(|m|);
    LengthLowFirst(|m|);
  }

  lemma LengthLowFirst(len: nat)
    ensures LowFirst(LengthBytes(len)) == len * 8 % DWORD
  {
    hide WordBytes, LowFirst;
    var bits := len * 8 % DWORD;
    WordLowFirst(bits % WORD);
    WordLowFirst(bits / WORD);
    LowFirstConcat(WordBytes(bits % WORD), WordBytes(bits / WORD));
  }

  lemma LowFirstConcat(a: seq<byte>, b: seq<byte>)
    requires |a| == 4
    ensures LowFirst(a + b) == LowFirst(a) + WORD * LowFirst(b)
  {
    LowFour(a + b);
    LowFour(a);
    assert (a + b)[..4] == a[..4] && (a + b)[4..] == b;
    assert LowFirst(a[4..]) == 0;
  }

  lemma CountBytes(lo: Word, hi: Word, n: nat)
    requires Joined((lo, hi)) == n * 8 % DWORD
    ensures WordBytes(lo) + WordBytes(hi) == LengthBytes(n)
  {
    hide WordBytes;
    var bits := n * 8 % DWORD;
    assert bits == lo + WORD * hi;
    assert bits % WORD == lo && bits / WORD == hi;
  }

  /** The source counts in unsigned words and from the bit count; it comes to the same. */
  lemma PadLength(c: nat, len: nat)
    requires c < WORD && c % BLOCK == len % BLOCK
    ensures (55 - c) % WORD % BLOCK == ZeroCount(len)
  {
    var u := if c <= 55 then 55 - c else 55 - c + WORD;
    assert (55 - c) % WORD == u;
    var q := c / BLOCK - len / BLOCK;
    assert c == len + BLOCK * q;
    SameResidue(u, 55 - len, if c <= 55 then -q else WORD / BLOCK - q);
  }

  lemma SameResidue(a: int, b: int, k: int)
    requires a == b + BLOCK * k
    ensures a % BLOCK == b % BLOCK
  {
  }

  // ---- Chunks ----

  function Flat(chunks: seq<seq<byte>>): seq<byte> {
    if chunks == [] then [] else Flat(chunks[..|chunks| - 1]) + chunks[|chunks| - 1]
  }

  /** Each chunk's length and what is pending before it sum up to an `int`. */
  predicate Appendable(chunks: seq<seq<byte>>) {
    forall i :: 0 <= i < |chunks| ==> |Flat(chunks[..i])| % BLOCK + |chunks[i]| < INT_LIMIT
  }

  /** `md5_init`, then one `md5_append` a chunk. */
  method Appended(p: Compression, chunks: seq<seq<byte>>) returns (s: State)
    requires Appendable(chunks)
    ensures fresh(s) && fresh(s.buf) && s.process == p && s.Valid() && s.message == Flat(chunks)
  {
    hide Blocks, Tail;
    s := new State(p);
    var i := 0;
    while i < |chunks|
      invariant 0 <= i <= |chunks| && s.process == p
      invariant s.Valid() && s.message == Flat(chunks[..i]) && fresh(s) && fresh(s.buf)
    {
      var c := chunks[i];
      s.Append(c, |c|);
      assert c[..|c|] == c && chunks[..i + 1][..i] == chunks[..i];
      i := i + 1;
    }
    assert chunks[..|chunks|] == chunks;
  }

  /**
   Chunk independence: cutting a message into any chunks leaves the registers, count words and
   pending bytes that one append of the whole leaves.
   */
  method ChunksIndependent(p: Compression, chunks: seq<seq<byte>>) returns (s: State, t: State)
    requires Appendable(chunks) && |Flat(chunks)| < INT_LIMIT
    ensures s.message == t.message == Flat(chunks) && s.buf.Length == t.buf.Length == BLOCK
    ensures s.abcd == t.abcd && s.count0 == t.count0 && s.count1 == t.count1
    ensures s.buf[..|Flat(chunks)| % BLOCK] == t.buf[..|Flat(chunks)| % BLOCK]
  {
    hide Blocks, Tail;
    s := Appended(p, chunks);
    t := new State(p);
    var whole := Flat(chunks);
    t.Append(whole, |whole|);
    assert whole[..|whole|] == whole;
    SameCount(s.count0, s.count1, t.count0, t.count1);
  }

  lemma SameCount(a: Word, b: Word, c: Word, d: Word)
    requires Joined((a, b)) == Joined((c, d))
    ensures a == c && b == d
  {
  }

  /** The digest of a message in chunks is that of the whole message, padded. */
  method DigestOf(p: Compression, chunks: seq<seq<byte>>) returns (digest: seq<byte>)
    requires Appendable(chunks)
    ensures digest == DigestBytes(Blocks(p, INIT, Padded(Flat(chunks))))
  {
    var s := Appended(p, chunks);
    digest := s.Finish();
  }
}
