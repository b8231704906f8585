/**
 The heap file: segments of 32 pages, the free-space index, and insert, remove and find by record id.
 The latches are taken as given: each method is one section under `_mutex`.
 */
module DmsFile {
  import opened Bytes
  import opened DmsPage
  import opened FreeMap

  const PAGES_PER_SEGMENT: nat := 32
  const SEGMENT_SIZE: nat := 134217728

  /** What `DMS_MAX_RECORD` expands to: it subtracts the 16-byte file header, not the page header. */
  const MAX_RECORD: nat := PAGESIZE - 16 - RECORD_HEADER - SLOT_SIZE

  /** The largest length a `BSONObj` accepts when it is wrapped around raw bytes. */
  const MAX_BSON: nat := 16793600

  datatype Code = OK | IO | INVALIDARG | SYS

  datatype Rid = Rid(page: nat, slot: nat)

  // ---- The abstract store ----

  /** Every id ever handed out: slots are appended and never taken back. */
  function Ids(ps: seq<PageState>): set<Rid> {
    set p, k | 0 <= p < |ps| && 0 <= k < |ps[p].cells| :: Rid(p, k)
  }

  predicate IsLive(ps: seq<PageState>, r: Rid) {
    r.page < |ps| && r.slot < |ps[r.page].cells| && ps[r.page].cells[r.slot].At?
  }

  /** The file as its callers see it: a map from record id to document. */
  function Live(ps: seq<PageState>): map<Rid, seq<byte>> {
    map r | r in Ids(ps) && IsLive(ps, r) :: ps[r.page].cells[r.slot].doc
  }

  predicate SameDocs(ps: seq<PageState>, qs: seq<PageState>) {
    && |ps| == |qs|
    && (forall p :: 0 <= p < |ps| ==> |ps[p].cells| == |qs[p].cells|)
    && (forall p, k :: 0 <= p < |ps| && 0 <= k < |ps[p].cells| ==>
          (ps[p].cells[k].At? <==> qs[p].cells[k].At?) &&
          (ps[p].cells[k].At? ==> ps[p].cells[k].doc == qs[p].cells[k].doc))
  }

  lemma SameDocsSameStore(ps: seq<PageState>, qs: seq<PageState>)
    requires SameDocs(ps, qs)
    ensures Live(ps) == Live(qs) && Ids(ps) == Ids(qs)
  {
    assert forall r :: r in Ids(ps) <==> r in Ids(qs);
    assert forall r :: r in Ids(ps) ==> (IsLive(ps, r) <==> IsLive(qs, r));
  }

  /** A record appended to a page adds one id that was never handed out before. */
  lemma AppendStore(ps: seq<PageState>, p: nat, cell: Cell, f: nat)
    requires p < |ps| && cell.At?
    ensures var r := Rid(p, |ps[p].cells|);
            var qs := ps[p := PageState(ps[p].cells + [cell], f)];
            && r !in Ids(ps) && Ids(qs) == Ids(ps) + {r}
            && Live(qs) == Live(ps)[r := cell.doc]
  {
    var r := Rid(p, |ps[p].cells|);
    var qs := ps[p := PageState(ps[p].cells + [cell], f)];
    forall x
      ensures x in Ids(qs) <==> x in Ids(ps) || x == r
    {
    }
    forall x | x in Ids(qs)
      ensures IsLive(qs, x) <==> IsLive(ps, x) || x == r
    {
    }
  }

  lemma DropStore(ps: seq<PageState>, r: Rid)
    requires IsLive(ps, r)
    ensures var s := ps[r.page];
            var qs := ps[r.page := s.(cells := s.cells[r.slot := Gone])];
            Ids(qs) == Ids(ps) && Live(qs) == Live(ps) - {r}
  {
    var s := ps[r.page];
    var qs := ps[r.page := s.(cells := s.cells[r.slot := Gone])];
    forall x
      ensures x in Ids(qs) <==> x in Ids(ps)
    {
    }
    forall x | x in Ids(qs)
      ensures IsLive(qs, x) <==> IsLive(ps, x) && x != r
    {
    }
  }

  const FRESH_PAGE: PageState := PageState([], PAGESIZE)

  function NewPages(n: nat): (ps: seq<PageState>)
    ensures |ps| == n && forall i :: 0 <= i < n ==> ps[i] == FRESH_PAGE
  {
    seq(n, _ => FRESH_PAGE)
  }

  lemma ExtendStore(ps: seq<PageState>, n: nat)
    ensures Live(ps + NewPages(n)) == Live(ps)
    ensures Ids(ps + NewPages(n)) == Ids(ps)
  {
    var qs := ps + NewPages(n);
    assert forall x :: x in Ids(qs) <==> x in Ids(ps);
  }

  // ---- The file ----

  /** Where a page starts in its segment, as `pageToOffset` has it. */
  function Base(p: nat): (b: nat)
    ensures b + PAGESIZE <= SEGMENT_SIZE
  {
    PAGESIZE * (p % PAGES_PER_SEGMENT)
  }

  /** Pages of one segment do not overlap. */
  lemma DistinctBases(p: nat, q: nat)
    requires p / PAGES_PER_SEGMENT == q / PAGES_PER_SEGMENT && p != q
    ensures Base(p) + PAGESIZE <= Base(q) || Base(q) + PAGESIZE <= Base(p)
  {
  }

  /** The first entry equal to `e`, taken out if there is one. */
  function Without(m: Multimap, e: Entry): (r: Multimap)
    requires Sorted(m)
    ensures Sorted(r) && multiset(r) == multiset(m) - multiset{e}
  {
    if e in m then
      var i := IndexOf(m, e);
      Erase(m, i)
    else
      m
  }

  function IndexOf(m: Multimap, e: Entry): (i: nat)
    requires e in m
    ensures i < |m| && m[i] == e && e !in m[..i]
  {
    if m[0] == e then 0 else 1 + IndexOf(m[1..], e)
  }

  /** The index once page `p` has moved on from its state in `ps` to that in `qs`: its entry is the youngest. */
  function Reentered(m: Multimap, ps: seq<PageState>, qs: seq<PageState>, p: nat): (n: Multimap)
    requires Sorted(m) && p < |ps| && p < |qs|
    ensures Sorted(n)
  {
    InsertEntry(Without(m, EntryFor(ps[p], p)), EntryFor(qs[p], p))
  }

  /** The index with `k` empty pages more, from page `n` on. */
  function WithNew(m: Multimap, n: nat, k: nat): (r: Multimap)
    requires Sorted(m)
    ensures Sorted(r)
  {
    if k == 0 then m else InsertEntry(WithNew(m, n, k - 1), Entry(PAGESIZE - PAGE_HEADER, n + k - 1))
  }

  /** The index with the pages of one more segment, from page `n` on. */
  function WithSegment(m: Multimap, n: nat): (r: Multimap)
    requires Sorted(m)
    ensures Sorted(r)
  {
    WithNew(m, n, PAGES_PER_SEGMENT)
  }

  /**
   What an insert that gets as far as a page makes of the index `m` of a file with `n` pages: the
   entries of a new segment where no page had room, then page `p` chosen, and its entry renewed if
   its state has moved on.
   */
  ghost predicate IndexMoved(m: Multimap, required: nat, n: nat, ps: seq<PageState>, qs: seq<PageState>, p: nat,
      now: Multimap, stored: bool)
  {
    && Sorted(m) && p < |ps| && p < |qs|
    && var k := Searched(m, required, n);
    && Chosen(k, required, p)
    && now == if stored then Reentered(k, ps, qs, p) else k
  }

  lemma IndexMoves(m: Multimap, required: nat, n: nat, ps: seq<PageState>, qs: seq<PageState>, p: nat,
      now: Multimap, stored: bool)
    requires Sorted(m) && p < |ps| && p < |qs| && Chosen(Searched(m, required, n), required, p)
    requires now == if stored then Reentered(Searched(m, required, n), ps, qs, p) else Searched(m, required, n)
    ensures IndexMoved(m, required, n, ps, qs, p, now, stored)
  {
  }

  /** The index the search of an insert succeeds on. */
  ghost function Searched(m: Multimap, required: nat, n: nat): (k: Multimap)
    requires Sorted(m)
    ensures Sorted(k)
  {
    if NoneAbove(m, required) then WithSegment(m, n) else m
  }

  lemma WithoutFirst(m: Multimap, e: Entry, i: nat)
    requires Sorted(m) && i <= |m| && e !in m[..i]
    requires if i < |m| then m[i] == e else true
    ensures Without(m, e) == if i < |m| then Erase(m, i) else m
  {
    if i < |m| {
      var k := IndexOf(m, e);
    } else {
      assert m[..i] == m;
    }
  }

  lemma AboveUpperBound(m: Multimap, key: int, e: Entry)
    requires Sorted(m) && e.free <= key && e !in m[..UpperBound(m, key)]
    ensures e !in m
  {
  }

  /** A compacted page stands for the same documents and has the same free space. */
  lemma CompactedDocs(ps: seq<PageState>, p: nat, u: Layout, f: nat)
    requires p < |ps| && (u == ps[p].cells || CompactedTo(ps[p].cells, u, |u|))
    ensures var s := PageState(u, f);
            && SameDocs(ps, ps[p := s]) && EntryFor(s, p) == EntryFor(ps[p], p)
            && FreeSpace(u) == FreeSpace(ps[p].cells)
  {
    if u != ps[p].cells {
      CompactedSame(ps[p].cells, u, |u|);
      UsedSame(ps[p].cells, u, |u|);
    }
  }

  lemma RewriteEntry(m: Multimap, ps: seq<PageState>, p: nat)
    requires multiset(m) == Index(ps) && p < |ps|
    ensures var e := EntryFor(ps[p], p);
            e in m && multiset(m) == multiset(m) - multiset{e} + multiset{e}
  {
    IndexOnce(ps, EntryFor(ps[p], p));
    assert EntryFor(ps[p], p) in multiset(m);
  }

  /** The file invariant on values: page bytes, page states and index agree. */
  ghost predicate Good(bs: seq<seq<byte>>, ps: seq<PageState>, m: Multimap) {
    && |bs| == |ps|
    && (forall p :: 0 <= p < |ps| ==> PageGood(bs[p], ps[p]))
    && Sorted(m) && multiset(m) == Index(ps)
  }

  ghost predicate PageGood(b: seq<byte>, s: PageState) {
    Holds(b, s.cells) && WordAt(b, AT_FREE_OFFSET) == s.freeOffset
  }

  /** The file is good again once page `p` alone has moved on to a well-formed state. */
  lemma GoodAfter(bs: seq<seq<byte>>, ps: seq<PageState>, m: Multimap, p: nat, b: seq<byte>, s: PageState, n: Multimap)
    requires Good(bs, ps, m) && p < |ps| && PageGood(b, s) && Sorted(n)
    requires multiset(n) == multiset(m) - multiset{EntryFor(ps[p], p)} + multiset{EntryFor(s, p)}
    ensures Good(bs[p := b], ps[p := s], n)
  {
    hide PageGood, EntryFor;
    IndexUpdate(ps, p, s);
  }

  /** The header `_extendSegment` copies to each page of a new segment. */
  function NewPageHeader(): (b: seq<byte>)
    ensures |b| == PAGE_HEADER
  {
    EYECATCHER + WordBytes(PAGESIZE) + WordBytes(0) + WordBytes(0) + WordBytes(PAGE_HEADER) +
    WordBytes(PAGESIZE - PAGE_HEADER) + WordBytes(PAGESIZE)
  }

  lemma NewPageWords(b: seq<byte>)
    requires |b| == PAGESIZE && b[0..PAGE_HEADER] == NewPageHeader()
    ensures b[0..4] == EYECATCHER && WordAt(b, AT_SIZE) == PAGESIZE && WordAt(b, AT_FLAG) == 0
    ensures WordAt(b, AT_NUM_SLOTS) == 0 && WordAt(b, AT_SLOT_OFFSET) == PAGE_HEADER
    ensures WordAt(b, AT_FREE_SPACE) == PAGESIZE - PAGE_HEADER && WordAt(b, AT_FREE_OFFSET) == PAGESIZE
  {
    hide WordOf, WordBytes;
    var h := NewPageHeader();
    assert b[0..4] == h[0..4] by { SliceOfSlice(b, 0, PAGE_HEADER, 0, 4); }
    NewPageWord(b, AT_SIZE, PAGESIZE);
    NewPageWord(b, AT_FLAG, 0);
    NewPageWord(b, AT_NUM_SLOTS, 0);
    NewPageWord(b, AT_SLOT_OFFSET, PAGE_HEADER);
    NewPageWord(b, AT_FREE_SPACE, PAGESIZE - PAGE_HEADER);
    NewPageWord(b, AT_FREE_OFFSET, PAGESIZE);
  }

  lemma NewPageWord(b: seq<byte>, at: nat, v: nat)
    requires |b| == PAGESIZE && b[0..PAGE_HEADER] == NewPageHeader()
    requires at + 4 <= PAGE_HEADER && v < WORD && NewPageHeader()[at..at + 4] == WordBytes(v)
    ensures WordAt(b, at) == v
  {
    hide WordOf, WordBytes, NewPageHeader;
    SliceOfSlice(b, 0, PAGE_HEADER, at, at + 4);
    WordRoundTrip(v);
  }

  /** A page as a new segment has it: the header, and zero where the first slot will be. */
  predicate FreshPage(b: seq<byte>) {
    |b| == PAGESIZE && b[0..PAGE_HEADER] == NewPageHeader() && SlotAt(b, 0) == 0
  }

  lemma NewPageGood(b: seq<byte>)
    requires |b| == PAGESIZE && b[0..PAGE_HEADER] == NewPageHeader()
    ensures PageGood(b, FRESH_PAGE)
  {
    hide WordOf, WordBytes, NewPageHeader;
    NewPageWords(b);
  }

  lemma GoodIndex(bs: seq<seq<byte>>, ps: seq<PageState>, m: Multimap)
    requires Good(bs, ps, m)
    ensures Sorted(m) && multiset(m) == Index(ps)
  {
  }

  lemma GoodExtended(bs: seq<seq<byte>>, ps: seq<PageState>, m: Multimap, cs: seq<seq<byte>>, n: nat, m': Multimap)
    requires Good(bs, ps, m) && |cs| == |ps| + n && cs[..|ps|] == bs
    requires forall p :: |ps| <= p < |cs| ==> |cs[p]| == PAGESIZE && cs[p][0..PAGE_HEADER] == NewPageHeader()
    requires Sorted(m') && multiset(m') == Index(ps + NewPages(n))
    ensures Good(cs, ps + NewPages(n), m')
  {
    hide PageGood, NewPageHeader;
    var qs := ps + NewPages(n);
    forall p | 0 <= p < |qs|
      ensures PageGood(cs[p], qs[p])
    {
      if p < |ps| {
        assert cs[p] == bs[p] && qs[p] == ps[p];
      } else {
        NewPageGood(cs[p]);
      }
    }
  }

  /** Page `p` of `ps` once document `d` has been stored just below its free offset. */
  ghost function WithRecord(ps: seq<PageState>, p: nat, d: seq<byte>): (qs: seq<PageState>)
    requires p < |ps| && RECORD_HEADER + |d| <= ps[p].freeOffset
    ensures |qs| == |ps|
  {
    var off := ps[p].freeOffset - RECORD_HEADER - |d|;
    ps[p := PageState(ps[p].cells + [At(off, d)], off)]
  }

  /** How `find` ends; `Throws` is the BSON size assertion, `Stray` a read outside the page. */
  datatype Answer = Found(doc: seq<byte>) | NotFound | Throws | Stray

  /** How `remove` ends; `Wild` is a write outside the page. */
  datatype Removal = Removed | Refused | Wild

  /** What a slot word makes of a removal. */
  function StrayRemoval(word: nat): Removal {
    if word == SLOT_EMPTY then Refused else if word + RECORD_HEADER > PAGESIZE then Wild else Removed
  }

  /** A slot id one past the last slot of a mapped page, which `_searchSlot` lets through. */
  ghost predicate OnePast(ps: seq<PageState>, r: Rid) {
    r.page < |ps| && r.slot == |ps[r.page].cells|
  }

  class HeapFile {
    var headerPages: nat
    var body: seq<array<byte>>
    var freeMap: Multimap
    ghost var pages: seq<PageState>

    /** A newly initialised file: a header and no segment. */
    constructor ()
      ensures Valid() && pages == [] && body == [] && freeMap == []
    {
      headerPages, body, freeMap, pages := 0, [], [], [];
    }

    ghost function Segments(): set<array<byte>>
      reads this
    {
      set a | a in body
    }

    ghost predicate Shape()
      reads this
    {
      && |pages| == |body| * PAGES_PER_SEGMENT == headerPages
      && (forall i :: 0 <= i < |body| ==> body[i].Length == SEGMENT_SIZE)
      && (forall i, j :: 0 <= i < j < |body| ==> body[i] != body[j])
    }

    /** The bytes of page `p`. */
    ghost function Page(p: nat): (r: seq<byte>)
      requires Shape() && p < |pages|
      reads this, Segments()
      ensures |r| == PAGESIZE
    {
      PageOf(body[p / PAGES_PER_SEGMENT], Base(p))
    }

    /** The bytes of every page. */
    ghost function Bytes(): (bs: seq<seq<byte>>)
      requires Shape()
      reads this, Segments()
      ensures |bs| == |pages|
      ensures forall p :: 0 <= p < |pages| ==> bs[p] == Page(p)
    {
      seq(|pages|, p requires Shape() && 0 <= p < |pages| reads this, Segments() => Page(p))
    }

    /** Every page well formed, and the free-space index in step with the pages. */
    ghost predicate Valid()
      reads this, Segments()
    {
      Shape() && Good(Bytes(), pages, freeMap)
    }

    /** Writes inside page `p` leave every other page alone, in its segment and in the others. */
    twostate lemma OthersKept(p: nat)
      requires old(Shape()) && Shape() && body == old(body) && |pages| == |old(pages)|
      requires p < |pages|
      requires forall a :: a in body && a != body[p / PAGES_PER_SEGMENT] ==> unchanged(a)
      requires KeptElsewhere(body[p / PAGES_PER_SEGMENT], Base(p))
      ensures Bytes() == old(Bytes())[p := Page(p)] && OnlyPage(p)
    {
      var i := p / PAGES_PER_SEGMENT;
      hide Base;
      forall q: nat | q < |pages| && q != p
        ensures Page(q) == old(Page(q))
      {
        var j := q / PAGES_PER_SEGMENT;
        var a, base := body[j], Base(q);
        if i == j {
          DistinctBases(p, q);
          assert a[base..base + PAGESIZE] == old(a[base..base + PAGESIZE]);
        } else {
          assert a in body && a != body[i] && unchanged(a);
        }
      }
    }

    /** Every page but `p` has the bytes it had. */
    twostate predicate OnlyPage(p: nat)
      requires old(Shape()) && Shape() && |pages| == |old(pages)|
      reads this, Segments()
    {
      forall q: nat :: q < |pages| && q != p ==> Page(q) == old(Page(q))
    }

    /** The search of `_updateFreeSpace`: the first entry of the page among those with its key. */
    method EraseEntry(freeSpace: nat, page: nat)
      requires Sorted(freeMap)
      modifies this`freeMap
      ensures freeMap == Without(old(freeMap), Entry(freeSpace, page))
    {
      hide Without, Erase;
      var m, e := freeMap, Entry(freeSpace, page);
      var it, end := UpperBound(m, freeSpace - 1), UpperBound(m, freeSpace);
      UpperBoundMonotone(m, freeSpace - 1, freeSpace);
      while it != end
        invariant it <= end <= |m| && freeMap == m
        invariant e !in m[..it]
        invariant it < end ==> freeSpace <= m[it].free
        decreases end - it
      {
        if m[it].page == page {
          WithoutFirst(m, e, it);
          freeMap := Erase(m, it);
          return;
        }
        it := it + 1;
      }
      AboveUpperBound(m, freeSpace, e);
      WithoutFirst(m, e, |m|);
    }

    /** `_updateFreeSpace`: the page's entry taken out, its counter changed, a new entry put in. */
    method UpdateFreeSpace(a: array<byte>, base: nat, change: int, page: nat)
      requires base + PAGESIZE <= a.Length && Sorted(freeMap)
      modifies this`freeMap, a
      ensures var free := old(WordAt(PageOf(a, base), AT_FREE_SPACE));
              var now := (free + change) % WORD;
              && freeMap == InsertEntry(Without(old(freeMap), Entry(free, page)), Entry(now, page))
              && PageOf(a, base) == Splice(old(PageOf(a, base)), AT_FREE_SPACE, WordBytes(now))
      ensures KeptElsewhere(a, base)
    {
      hide PageOf, WordAt, WordBytes, Splice, InsertEntry, Without;
      var freeSpace := ReadWord(a, base, AT_FREE_SPACE);
      EraseEntry(freeSpace, page);
      freeSpace := (freeSpace + change) % WORD;
      WritePage(a, base, AT_FREE_SPACE, WordBytes(freeSpace));
      freeMap := InsertEntry(freeMap, Entry(freeSpace, page));
    }

    /** Room left between the slots and the records of page `p`. */
    ghost function Gap(p: nat): int
      requires p < |pages|
      reads this
    {
      pages[p].freeOffset - SlotsEnd(|pages[p].cells|)
    }

    /** The compaction inside `insert`: the same documents, the same counters, records moved up. */
    method CompactPage(p: nat)
      requires Valid() && p < |pages|
      modifies this`pages, Segments()
      ensures Valid() && body == old(body) && freeMap == old(freeMap)
      ensures forall q: nat :: q < |pages| && q != p ==> pages[q] == old(pages)[q]
      ensures |pages| == |old(pages)| && pages[p].freeOffset == old(pages[p].freeOffset)
      ensures OnlyPage(p)
      ensures CompactedTo(old(pages[p].cells), pages[p].cells, |old(pages[p].cells)|)
      ensures SameDocs(old(pages), pages) && FreeSpace(pages[p].cells) == old(FreeSpace(pages[p].cells))
    {
      hide Holds, CompactedTo, SameDocs, FreeSpace, EntryFor;
      var a := body[p / PAGES_PER_SEGMENT];
      ghost var c, f := pages[p].cells, pages[p].freeOffset;
      ghost var bs, ps := Bytes(), pages;
      assert PageGood(Page(p), pages[p]);
      RewriteEntry(freeMap, pages, p);
      ghost var u;
      var right;
      right, u := RecoverSpace(a, Base(p), c);
      CompactedLength(c, u);
      CompactedDocs(pages, p, u, f);
      pages := pages[p := PageState(u, f)];
      OthersKept(p);
      GoodAfter(bs, ps, freeMap, p, Page(p), PageState(u, f), freeMap);
    }

    /**
     `_extendSegment`: a new zeroed segment, a page header at each page start, then, under the latch,
     one index entry per page with ids counted on from the size of the index.
     */
    method ExtendSegment(fileExtends: bool) returns (rc: Code)
      requires Valid()
      modifies this
      ensures Valid()
      ensures !fileExtends ==> rc == IO && pages == old(pages) && body == old(body) && freeMap == old(freeMap)
      ensures fileExtends ==>
                && rc == OK && pages == old(pages) + NewPages(PAGES_PER_SEGMENT)
                && Sorted(old(freeMap)) && freeMap == WithSegment(old(freeMap), |old(pages)|)
                && (forall p: nat :: |old(pages)| <= p < |pages| ==> FreshPage(Page(p)))
                && |body| == |old(body)| + 1 && body[..|body| - 1] == old(body) && fresh(body[|body| - 1])
    {
      if !fileExtends {
        return IO;
      }
      hide Valid, NewPages, FreshPage, WithSegment;
      MapSegment();
      rc := OK;
    }

    /** The part of `_extendSegment` that cannot fail. */
    method MapSegment()
      requires Valid()
      modifies this
      ensures Valid() && pages == old(pages) + NewPages(PAGES_PER_SEGMENT)
      ensures Sorted(old(freeMap)) && freeMap == WithSegment(old(freeMap), |old(pages)|)
      ensures forall p: nat :: |old(pages)| <= p < |pages| ==> FreshPage(Page(p))
      ensures |body| == |old(body)| + 1 && body[..|body| - 1] == old(body) && fresh(body[|body| - 1])
    {
      hide Good, Index, NewPageHeader, Sorted, NewPages, PageOf, SlotAt, WithSegment;
      ghost var bs, ps, m := Bytes(), pages, freeMap;
      assert Good(bs, ps, m);
      var data := NewSegment();
      assert Sorted(m) && multiset(m) == Index(ps) by { GoodIndex(bs, ps, m); }
      AddEntries();
      body := body + [data];
      headerPages := headerPages + PAGES_PER_SEGMENT;
      assert Shape();
      NewBytes(bs, data);
      GoodExtended(bs, ps, m, Bytes(), PAGES_PER_SEGMENT, freeMap);
    }

    ghost predicate AllNew(data: array<byte>)
      requires data.Length == SEGMENT_SIZE
      reads data
    {
      forall p: nat :: FreshPage(PageOf(data, Base(p)))
    }

    lemma NewBytes(bs: seq<seq<byte>>, data: array<byte>)
      requires Shape() && |body| > 0 && body[|body| - 1] == data && AllNew(data)
      requires |bs| == |pages| - PAGES_PER_SEGMENT
      requires forall p :: 0 <= p < |bs| ==> bs[p] == PageOf(body[p / PAGES_PER_SEGMENT], Base(p))
      ensures Bytes()[..|bs|] == bs
      ensures forall p :: |bs| <= p < |pages| ==> FreshPage(Bytes()[p])
    {
      hide FreshPage;
      forall p | |bs| <= p < |pages|
        ensures FreshPage(Bytes()[p])
      {
        assert Page(p) == PageOf(data, Base(p));
      }
    }

    method AddEntries()
      requires Sorted(freeMap) && multiset(freeMap) == Index(pages)
      modifies this`freeMap, this`pages
      ensures pages == old(pages) + NewPages(PAGES_PER_SEGMENT)
      ensures Sorted(freeMap) && multiset(freeMap) == Index(pages)
      ensures freeMap == WithSegment(old(freeMap), |old(pages)|)
    {
      hide InsertEntry, Index, NewPages, WithNew;
      ghost var ps, m := pages, freeMap;
      WithNewUnfold(m, |ps|, 0);
      assert ps + NewPages(0) == ps;
      var freeMapSize := |freeMap|;
      IndexSize(freeMap, pages);
      var i := 0;
      while i < PAGES_PER_SEGMENT
        invariant i <= PAGES_PER_SEGMENT
        invariant pages == ps + NewPages(i)
        invariant Sorted(freeMap) && multiset(freeMap) == Index(pages) && freeMap == WithNew(m, |ps|, i)
      {
        freeMap := InsertEntry(freeMap, Entry(PAGESIZE - PAGE_HEADER, i + freeMapSize));
        IndexAppend(pages, FRESH_PAGE);
        WithNewUnfold(m, |ps|, i + 1);
        assert ps + NewPages(i) + [FRESH_PAGE] == ps + NewPages(i + 1);
        pages := pages + [FRESH_PAGE];
        i := i + 1;
      }
    }

    method WriteHeader(data: array<byte>, i: nat, h: seq<byte>)
      requires data.Length == SEGMENT_SIZE && i < PAGES_PER_SEGMENT && |h| == PAGE_HEADER
      modifies data
      ensures PageOf(data, Base(i))[0..PAGE_HEADER] == h
      ensures SlotAt(PageOf(data, Base(i)), 0) == old(SlotAt(PageOf(data, Base(i)), 0))
      ensures forall k :: 0 <= k < PAGES_PER_SEGMENT && k != i ==> PageOf(data, Base(k)) == old(PageOf(data, Base(k)))
    {
      hide Splice, WordAt;
      ghost var was := PageOf(data, Base(i));
      WritePage(data, Base(i), 0, h);
      SpliceInside(was, 0, h);
      SpliceWordOutside(was, 0, h, SlotsEnd(0));
      forall k | 0 <= k < PAGES_PER_SEGMENT && k != i
        ensures PageOf(data, Base(k)) == old(PageOf(data, Base(k)))
      {
        DistinctBases(i, k);
      }
    }

    method NewSegment() returns (data: array<byte>)
      ensures fresh(data) && data.Length == SEGMENT_SIZE && AllNew(data)
    {
      hide NewPageHeader, PageOf, SlotAt;
      data := new byte[SEGMENT_SIZE](_ => 0);
      forall k | 0 <= k < PAGES_PER_SEGMENT
        ensures SlotAt(PageOf(data, Base(k)), 0) == 0
      {
        ZeroSlot(data, k);
      }
      var h := NewPageHeader();
      var i := 0;
      while i < PAGES_PER_SEGMENT
        invariant 0 <= i <= PAGES_PER_SEGMENT
        invariant forall k :: 0 <= k < i ==> PageOf(data, Base(k))[0..PAGE_HEADER] == h
        invariant forall k :: 0 <= k < PAGES_PER_SEGMENT ==> SlotAt(PageOf(data, Base(k)), 0) == 0
      {
        WriteHeader(data, i, h);
        i := i + 1;
      }
      forall p: nat
        ensures FreshPage(PageOf(data, Base(p)))
      {
        assert Base(p) == Base(p % PAGES_PER_SEGMENT);
      }
    }

    static lemma ZeroSlot(data: array<byte>, k: nat)
      requires data.Length == SEGMENT_SIZE && forall i :: 0 <= i < data.Length ==> data[i] == 0
      ensures SlotAt(PageOf(data, Base(k)), 0) == 0
    {
      var b := PageOf(data, Base(k));
      assert forall i :: 0 <= i < PAGESIZE ==> b[i] == data[Base(k) + i] == 0;
      var w := b[SlotsEnd(0)..SlotsEnd(0) + 4];
      assert w[0] == w[1] == w[2] == w[3] == 0;
    }

    /** `_findPage`: `upper_bound` of the wanted size in the index. */
    method FindPage(required: nat) returns (found: bool, p: nat)
      requires Valid()
      ensures found ==> Chosen(freeMap, required, p) && p < |pages| && required < FreeSpace(pages[p].cells)
      ensures !found <==> NoneAbove(freeMap, required)
      ensures found <==> exists q: nat :: q < |pages| && required < FreeSpace(pages[q].cells)
    {
      hide Good, Chosen, NoneAbove;
      FindGood(Bytes(), pages, freeMap, required);
      UpperChosen(freeMap, required);
      var i := UpperBound(freeMap, required);
      if i < |freeMap| {
        found, p := true, freeMap[i].page;
      } else {
        found, p := false, 0;
      }
    }

    lemma GoodPage(p: nat)
      requires Valid() && p < |pages|
      ensures PageGood(Page(p), pages[p])
    {
      assert Page(p) == Bytes()[p];
    }

    static lemma PageStart(a: array<byte>, base: nat)
      requires base + PAGESIZE <= a.Length
      ensures a[base..base + 4] == PageOf(a, base)[0..4]
    {
      SliceOfSlice(a[..], base, base + PAGESIZE, 0, 4);
    }

    /** `insert` from the page lookup on: the compaction test, the space test, and the writes. */
    method InsertInto(p: nat, d: seq<byte>) returns (rc: Code, rid: Rid)
      requires Valid() && p < |pages| && IsDocument(d)
      modifies this`pages, this`freeMap, Segments()
      ensures Valid() && body == old(body)
      ensures rc == OK <==> old(Gap(p)) >= RECORD_HEADER + |d| + SLOT_SIZE
      ensures rc == OK ==> rid == Rid(p, |old(pages[p].cells)|) && pages == WithRecord(old(pages), p, d)
      ensures rc == OK ==> Sorted(old(freeMap)) && freeMap == Reentered(old(freeMap), old(pages), pages, p)
      ensures rc != OK ==> rc == SYS && SameDocs(old(pages), pages) && freeMap == old(freeMap)
      ensures rc != OK ==> forall q: nat :: q < |pages| ==> pages[q].freeOffset == old(pages[q].freeOffset)
      ensures OnlyPage(p)
    {
      hide Holds, SameDocs, WithRecord, CompactedTo, Good, Reentered;
      var a, base := body[p / PAGES_PER_SEGMENT], Base(p);
      GoodPage(p);
      PageWords(Page(p), pages[p]);
      SameDocsRefl(pages);
      PageStart(a, base);
      rc, rid := SYS, Rid(0, 0);
      if a[base..base + 4] != EYECATCHER {
        return;
      }
      var need := |d| + RECORD_HEADER + SLOT_SIZE;
      var freeSpace, freeOffset := ReadWord(a, base, AT_FREE_SPACE), ReadWord(a, base, AT_FREE_OFFSET);
      var slotOffset := ReadWord(a, base, AT_SLOT_OFFSET);
      if freeSpace > freeOffset - slotOffset && slotOffset + need > freeOffset {
        CompactPage(p);
        CompactedLength(old(pages[p].cells), pages[p].cells);
        assert Gap(p) == old(Gap(p)) < need;
        rc, rid := PutIfRoom(p, d);
      } else {
        rc, rid := PutIfRoom(p, d);
      }
    }

    /** The space test behind the compaction, and the writes. */
    method PutIfRoom(p: nat, d: seq<byte>) returns (rc: Code, rid: Rid)
      requires Valid() && p < |pages| && IsDocument(d)
      modifies this`pages, this`freeMap, Segments()
      ensures Valid() && body == old(body)
      ensures rc == OK <==> old(Gap(p)) >= RECORD_HEADER + |d| + SLOT_SIZE
      ensures rc == OK ==> rid == Rid(p, |old(pages[p].cells)|) && pages == WithRecord(old(pages), p, d)
      ensures rc == OK ==> Sorted(old(freeMap)) && freeMap == Reentered(old(freeMap), old(pages), pages, p)
      ensures rc != OK ==> rc == SYS && pages == old(pages) && freeMap == old(freeMap)
      ensures OnlyPage(p)
    {
      hide Holds, WithRecord, Good, IsDocument, Reentered;
      var a, base := body[p / PAGES_PER_SEGMENT], Base(p);
      GoodPage(p);
      PageWords(Page(p), pages[p]);
      hide PageGood;
      var need := |d| + RECORD_HEADER + SLOT_SIZE;
      var freeSpace, freeOffset := ReadWord(a, base, AT_FREE_SPACE), ReadWord(a, base, AT_FREE_OFFSET);
      var slotOffset := ReadWord(a, base, AT_SLOT_OFFSET);
      if freeSpace < need || freeOffset - slotOffset < need {
        return SYS, Rid(0, 0);
      }
      rid := Rid(p, ReadWord(a, base, AT_NUM_SLOTS));
      PutRecord(p, d);
      rc := OK;
    }

    /**
     An insert into page `p` whose compaction stores the boundary it computes: it succeeds exactly
     when the accounted free space of the page is enough, keeps every document, and leaves a good
     file either way. `between` is the file behind the compaction.
     */
    method CompletedInsertInto(p: nat, d: seq<byte>) returns (rc: Code, rid: Rid, ghost between: seq<PageState>)
      requires Valid() && p < |pages| && IsDocument(d)
      modifies this`pages, this`freeMap, Segments()
      ensures Valid() && body == old(body) && OnlyPage(p)
      ensures rc == OK <==> old(FreeSpace(pages[p].cells)) >= RECORD_HEADER + |d| + SLOT_SIZE
      ensures SameDocs(old(pages), between) && p < |between| && |between[p].cells| == |old(pages[p].cells)|
      ensures rc == OK ==>
                && rid == Rid(p, |old(pages[p].cells)|) && RECORD_HEADER + |d| <= between[p].freeOffset
                && pages == WithRecord(between, p, d)
                && Sorted(old(freeMap)) && freeMap == Reentered(old(freeMap), between, pages, p)
      ensures rc != OK ==> rc == SYS && pages == between && freeMap == old(freeMap)
    {
      hide Holds, SameDocs, WithRecord, Good, FreeSpace, IsDocument, PageGood, Reentered;
      var fits := CompletedTest(p, |d| + RECORD_HEADER + SLOT_SIZE);
      between := pages;
      GoodPage(p);
      PageWords(Page(p), pages[p]);
      if !fits {
        return SYS, Rid(0, 0), between;
      }
      rid := Rid(p, ReadWord(body[p / PAGES_PER_SEGMENT], Base(p), AT_NUM_SLOTS));
      PutRecord(p, d);
      rc := OK;
    }

    method CompletedTest(p: nat, need: nat) returns (fits: bool)
      requires Valid() && p < |pages|
      modifies this`pages, Segments()
      ensures Valid() && body == old(body) && freeMap == old(freeMap) && OnlyPage(p)
      ensures SameDocs(old(pages), pages) && |pages[p].cells| == |old(pages[p].cells)|
      ensures fits == (old(FreeSpace(pages[p].cells)) >= need) && (fits ==> Gap(p) >= need)
    {
      hide CompactedTo, SameDocs, FreeSpace, EntryFor, PageGood;
      ghost var bs, ps := Bytes(), pages;
      GoodPage(p);
      RewriteEntry(freeMap, pages, p);
      ghost var s;
      fits, s := TestSpace(body[p / PAGES_PER_SEGMENT], Base(p), need, pages[p]);
      CompactedDocs(ps, p, s.cells, s.freeOffset);
      pages := pages[p := s];
      OthersKept(p);
      GoodAfter(bs, ps, freeMap, p, Page(p), s, freeMap);
    }

    static method TestSpace(a: array<byte>, base: nat, need: nat, ghost s: PageState)
        returns (fits: bool, ghost t: PageState)
      requires base + PAGESIZE <= a.Length && PageGood(PageOf(a, base), s)
      modifies a
      ensures PageGood(PageOf(a, base), t) && |t.cells| == |s.cells|
      ensures t.cells == s.cells || CompactedTo(s.cells, t.cells, |s.cells|)
      ensures fits == (FreeSpace(s.cells) >= need) && (fits ==> t.freeOffset - SlotsEnd(|t.cells|) >= need)
      ensures KeptElsewhere(a, base)
    {
      hide CompactedTo, FreeSpace, Holds;
      PageWords(PageOf(a, base), s);
      ghost var u;
      fits, u := CompletedSpaceTest(a, base, need, s.cells);
      t := PageState(u, WordAt(PageOf(a, base), AT_FREE_OFFSET));
      if u != s.cells {
        CompactedLength(s.cells, u);
      }
      PageWords(PageOf(a, base), t);
    }

    method PutRecord(p: nat, d: seq<byte>)
      requires Valid() && p < |pages| && IsDocument(d) && Gap(p) >= RECORD_HEADER + |d| + SLOT_SIZE
      modifies this`pages, this`freeMap, Segments()
      ensures Valid() && body == old(body) && pages == WithRecord(old(pages), p, d) && OnlyPage(p)
      ensures Sorted(old(freeMap)) && freeMap == Reentered(old(freeMap), old(pages), pages, p)
    {
      hide IsDocument, EntryFor, Uncounted, CountedPage, CountedIndex, WithRecord, Index, Base, SlotsEnd, PageOf;
      ghost var bs, ps, m := Bytes(), pages, freeMap;
      assert PageGood(Page(p), ps[p]) && Sorted(m);
      hide PageGood, Holds, Sorted;
      ghost var q := PutBytes(body[p / PAGES_PER_SEGMENT], Base(p), p, d, ps[p]);
      pages := WithRecord(pages, p, d);
      OthersKept(p);
      PutGood(bs, ps, m, p, d, q);
      PutEntry(bs, ps, m, p, d, q);
    }

    /** The byte writes of an insert, up to the recount. */
    method Store(a: array<byte>, base: nat, d: seq<byte>, ghost s: PageState) returns (ghost q: seq<byte>)
      requires base + PAGESIZE <= a.Length && PageGood(PageOf(a, base), s) && IsDocument(d)
      requires SlotsEnd(|s.cells|) + RECORD_HEADER + |d| + SLOT_SIZE <= s.freeOffset
      modifies a
      ensures q == PageOf(a, base) && Uncounted(q, s.cells, s.freeOffset - RECORD_HEADER - |d|, d)
      ensures KeptElsewhere(a, base)
    {
      hide IsDocument, WordAt, Placed, Shows, Uncounted, SlotsEnd, PageOf;
      StoreRecord(a, base, d, s.cells);
      q := PageOf(a, base);
    }

    /** The byte writes and the index change of an insert; `q` is the page before its recount. */
    method PutBytes(a: array<byte>, base: nat, p: nat, d: seq<byte>, ghost s: PageState) returns (ghost q: seq<byte>)
      requires base + PAGESIZE <= a.Length && PageGood(PageOf(a, base), s) && IsDocument(d) && Sorted(freeMap)
      requires SlotsEnd(|s.cells|) + RECORD_HEADER + |d| + SLOT_SIZE <= s.freeOffset
      modifies this`freeMap, a
      ensures |q| == PAGESIZE && Uncounted(q, s.cells, s.freeOffset - RECORD_HEADER - |d|, d)
      ensures PageOf(a, base) == CountedPage(q, d) && freeMap == CountedIndex(old(freeMap), q, d, p)
      ensures KeptElsewhere(a, base)
    {
      hide PageOf, WordAt, IsDocument, WordBytes, Splice, Placed, Shows, Uncounted, InsertEntry, Without, Sorted,
        SlotsEnd;
      q := Store(a, base, d, s);
      hide PageGood, Holds;
      UpdateFreeSpace(a, base, -(|d| + SLOT_SIZE + RECORD_HEADER), p);
    }

    /**
     `insert`. The precondition is that the retry loop ends: the record is refused at once, or the
     file cannot grow, or a fresh page has more free bytes than `_findPage` is asked for.
     */
    method Insert(d: seq<byte>, hasId: bool, fileExtends: bool) returns (rc: Code, rid: Rid, ghost p: nat)
      requires Valid() && IsDocument(d)
      requires |d| > MAX_RECORD || !hasId || !fileExtends || |d| + RECORD_HEADER < PAGESIZE - PAGE_HEADER
      modifies this, Segments()
      ensures Valid() && fresh(Segments() - old(Segments()))
      ensures rc == INVALIDARG <==> |d| > MAX_RECORD || !hasId
      ensures rc == IO <==> |d| <= MAX_RECORD && hasId && !fileExtends && NoneAbove(old(freeMap), |d| + RECORD_HEADER)
      ensures rc == INVALIDARG || rc == IO ==> pages == old(pages) && freeMap == old(freeMap)
      ensures rc == OK || rc == SYS ==>
                var ps := if NoneAbove(old(freeMap), |d| + RECORD_HEADER)
                          then old(pages) + NewPages(PAGES_PER_SEGMENT) else old(pages);
                && p < |ps| && |d| + RECORD_HEADER < FreeSpace(ps[p].cells)
                && (ps != old(pages) ==> p == |old(pages)|)
                && (rc == OK <==> ps[p].freeOffset - SlotsEnd(|ps[p].cells|) >= |d| + RECORD_HEADER + SLOT_SIZE)
                && (rc == OK ==> rid == Rid(p, |ps[p].cells|) && pages == WithRecord(ps, p, d))
                && (rc == SYS ==> SameDocs(ps, pages))
                && (rc == SYS ==> forall q: nat :: q < |ps| ==> pages[q].freeOffset == ps[q].freeOffset)
                && IndexMoved(old(freeMap), |d| + RECORD_HEADER, |old(pages)|, ps, pages, p, freeMap, rc == OK)
                && forall q: nat :: |old(pages)| <= q < |pages| && q != p ==> FreshPage(Page(q))
    {
      hide Good, SameDocs, WithRecord, NewPages, Chosen, NoneAbove, FreeSpace, SlotsEnd, FreshPage, Reentered,
        WithSegment, IndexMoved;
      rid, p := Rid(0, 0), 0;
      if |d| > MAX_RECORD {
        return INVALIDARG, rid, p;
      }
      if !hasId {
        return INVALIDARG, rid, p;
      }
      ghost var none := NoneAbove(freeMap, |d| + RECORD_HEADER);
      ghost var ps := if none then pages + NewPages(PAGES_PER_SEGMENT) else pages;
      assert Sorted(freeMap) by { FindGood(Bytes(), pages, freeMap, 0); }
      ghost var m := Searched(freeMap, |d| + RECORD_HEADER, |pages|);
      var retries := 0;
      while true
        invariant Valid() && fresh(Segments() - old(Segments())) && retries <= 1
        invariant retries == 0 ==> pages == old(pages) && freeMap == old(freeMap) && body == old(body)
        invariant retries == 1 ==> fileExtends && none && pages == ps && |d| + RECORD_HEADER < PAGESIZE - PAGE_HEADER
        invariant retries == 1 ==> freeMap == m
        invariant forall q: nat :: |old(pages)| <= q < |pages| ==> FreshPage(Page(q))
        decreases 1 - retries
      {
        var found, q := FindPage(|d| + RECORD_HEADER);
        assert retries == 0 ==> found == !none;
        if !found {
          if retries == 1 {
            FreshHasRoom(old(pages), |d| + RECORD_HEADER);
          }
          rc := ExtendSegment(fileExtends);
          if rc != OK {
            return rc, rid, p;
          }
          retries := 1;
        } else {
          p := q;
          if retries == 1 {
            NewChosen(old(freeMap), |old(pages)|, |d| + RECORD_HEADER, q);
          }
          assert Chosen(m, |d| + RECORD_HEADER, p);
          rc, rid := InsertInto(q, d);
          IndexMoves(old(freeMap), |d| + RECORD_HEADER, |old(pages)|, ps, pages, p, freeMap, rc == OK);
          return rc, rid, p;
        }
      }
    }

    /** `_searchSlot` as written: a slot id equal to the number of slots is let through. */
    method SearchSlot(p: nat, slot: nat) returns (rc: Code, word: nat)
      requires Valid() && p < |pages|
      ensures slot > |pages[p].cells| <==> rc == SYS
      ensures rc == OK || rc == SYS
      ensures slot < |pages[p].cells| ==> SlotsEnd(slot + 1) <= PAGESIZE && word == SlotAt(Page(p), slot)
      ensures slot == |pages[p].cells| && SlotsEnd(slot + 1) <= PAGESIZE ==> word == SlotAt(Page(p), slot)
    {
      hide Holds;
      var a, base := body[p / PAGES_PER_SEGMENT], Base(p);
      assert PageGood(Page(p), pages[p]);
      PageWords(Page(p), pages[p]);
      if slot > ReadWord(a, base, AT_NUM_SLOTS) {
        return SYS, 0;
      }
      rc, word := OK, SLOT_EMPTY;
      if SlotsEnd(slot + 1) <= PAGESIZE {
        word := ReadWord(a, base, SlotsEnd(slot));
      }
    }

    method IsOnePast(r: Rid) returns (b: bool)
      requires Valid()
      ensures b == OnePast(pages, r)
    {
      hide Holds;
      if r.page >= |body| * PAGES_PER_SEGMENT {
        return false;
      }
      assert PageGood(Page(r.page), pages[r.page]);
      PageWords(Page(r.page), pages[r.page]);
      b := ReadWord(body[r.page / PAGES_PER_SEGMENT], Base(r.page), AT_NUM_SLOTS) == r.slot;
    }

    /**
     `find`. Right for every record id but one past the last slot of a mapped page; there it
     follows whatever word lies behind the slots.
     */
    method Find(r: Rid) returns (answer: Answer)
      requires Valid()
      ensures !OnePast(pages, r) ==>
          answer == if IsLive(pages, r) then Found(pages[r.page].cells[r.slot].doc) else NotFound
      ensures OnePast(pages, r) && SlotsEnd(r.slot + 1) <= PAGESIZE ==>
                answer == AnswerAt(Page(r.page), SlotAt(Page(r.page), r.slot))
      ensures OnePast(pages, r) && SlotsEnd(r.slot + 1) > PAGESIZE ==> answer == Stray
    {
      hide PageGood, Index, Sorted, AnswerAt, SlotAt;
      if r.page >= |body| * PAGES_PER_SEGMENT {
        return NotFound;
      }
      var rc, slot := SearchSlot(r.page, r.slot);
      if rc != OK {
        return NotFound;
      }
      if SlotsEnd(r.slot + 1) > PAGESIZE {
        CellsFit(Bytes(), pages, freeMap, r.page);
        return Stray;
      }
      if r.slot < |pages[r.page].cells| {
        CellAnswer(Bytes(), pages, freeMap, r);
      }
      answer := ReadRecord(body[r.page / PAGES_PER_SEGMENT], Base(r.page), slot);
    }

    /** What `find` does with the slot word. */
    static method ReadRecord(a: array<byte>, base: nat, slot: nat) returns (answer: Answer)
      requires base + PAGESIZE <= a.Length
      ensures answer == AnswerAt(PageOf(a, base), slot)
    {
      if slot == SLOT_EMPTY {
        return NotFound;
      }
      if slot + RECORD_HEADER > PAGESIZE {
        return Stray;
      }
      if ReadWord(a, base, slot + 4) == FLAG_DROPPED {
        return NotFound;
      }
      if slot + RECORD_HEADER + 4 > PAGESIZE {
        return Stray;
      }
      var size := ReadWord(a, base, slot + RECORD_HEADER);
      if size == 0 || size > MAX_BSON {
        return Throws;
      }
      if slot + RECORD_HEADER + size > PAGESIZE {
        return Stray;
      }
      SliceOfSlice(a[..], base, base + PAGESIZE, slot + RECORD_HEADER, slot + RECORD_HEADER + size);
      answer := Found(a[base + slot + RECORD_HEADER..base + slot + RECORD_HEADER + size]);
    }

    /**
     `remove`. Right for every record id but one past the last slot of a mapped page; there it
     empties that slot and gives the page whatever size the stray word leads to.
     */
    method Remove(r: Rid) returns (done: Removal)
      requires Valid()
      modifies this`pages, this`freeMap, Segments()
      ensures body == old(body) && headerPages == old(headerPages) && |pages| == |old(pages)|
      ensures !old(OnePast(pages, r)) ==> Valid() && done == if old(IsLive(pages, r)) then Removed else Refused
      ensures done == Removed && !old(OnePast(pages, r)) ==>
                && pages == WithoutRecord(old(pages), r)
                && Sorted(old(freeMap)) && freeMap == Reentered(old(freeMap), old(pages), pages, r.page)
      ensures done == Refused ==> Valid() && pages == old(pages) && freeMap == old(freeMap)
      ensures old(OnePast(pages, r)) && SlotsEnd(r.slot + 1) <= PAGESIZE ==>
                var b := old(Page(r.page));
                && done == StrayRemoval(SlotAt(b, r.slot))
                && (done == Removed ==>
                      && Page(r.page) == StrayRemoved(b, r.slot)
                      && freeMap == ErasedIndex(old(freeMap), b, r.slot, SlotAt(b, r.slot), r.page)
                      && forall q: nat :: q < |pages| && q != r.page ==> Page(q) == old(Page(q)))
      ensures old(OnePast(pages, r)) && SlotsEnd(r.slot + 1) > PAGESIZE ==> done == Wild
    {
      hide PageGood, Index, Sorted, IsDocument, WordBytes, WordOf, RecordBytes, CellShown;
      if r.page >= |body| * PAGES_PER_SEGMENT {
        return Refused;
      }
      var a, base := body[r.page / PAGES_PER_SEGMENT], Base(r.page);
      var rc, slot := SearchSlot(r.page, r.slot);
      if rc != OK {
        return Refused;
      }
      if SlotsEnd(r.slot + 1) > PAGESIZE {
        CellsFit(Bytes(), pages, freeMap, r.page);
        return Wild;
      }
      if r.slot < |pages[r.page].cells| {
        CellRead(Bytes(), pages, freeMap, r);
      }
      if slot == SLOT_EMPTY {
        return Refused;
      }
      if slot + RECORD_HEADER > PAGESIZE {
        return Wild;
      }
      EraseAt(r, slot);
      done := Removed;
    }

    /** The writes of `remove`, whatever the slot word led to. */
    method EraseSlot(a: array<byte>, base: nat, k: nat, slot: nat, p: nat)
      requires base + PAGESIZE <= a.Length && Sorted(freeMap)
      requires SlotsEnd(k + 1) <= PAGESIZE && slot + RECORD_HEADER <= PAGESIZE
      modifies this`freeMap, a
      ensures PageOf(a, base) == ErasedPage(old(PageOf(a, base)), k, slot)
      ensures freeMap == ErasedIndex(old(freeMap), old(PageOf(a, base)), k, slot, p)
      ensures KeptElsewhere(a, base)
    {
      hide PageOf, WordAt, WordBytes, Splice, InsertEntry, Without, Sorted, Flagged, ErasedPage, ErasedIndex;
      ghost var b, m := PageOf(a, base), freeMap;
      FlagSlot(a, base, k, slot);
      ghost var q := PageOf(a, base);
      ErasedUnfold(m, b, k, slot, p, q);
      var size := ReadWord(a, base, slot);
      UpdateFreeSpace(a, base, size, p);
    }

    method FlagSlot(a: array<byte>, base: nat, k: nat, slot: nat)
      requires base + PAGESIZE <= a.Length
      requires SlotsEnd(k + 1) <= PAGESIZE && slot + RECORD_HEADER <= PAGESIZE
      modifies a
      ensures PageOf(a, base) == Flagged(old(PageOf(a, base)), k, slot)
      ensures KeptElsewhere(a, base)
    {
      hide PageOf, WordBytes, Splice;
      WritePage(a, base, SlotsEnd(k), WordBytes(SLOT_EMPTY));
      WritePage(a, base, slot + 4, WordBytes(FLAG_DROPPED));
    }

    method EraseAt(r: Rid, slot: nat)
      requires Valid() && r.page < |pages| && SlotsEnd(r.slot + 1) <= PAGESIZE && slot + RECORD_HEADER <= PAGESIZE
      requires IsLive(pages, r) || OnePast(pages, r)
      requires slot == if IsLive(pages, r) then pages[r.page].cells[r.slot].off else SlotAt(Page(r.page), r.slot)
      modifies this`pages, this`freeMap, Segments()
      ensures body == old(body) && headerPages == old(headerPages)
      ensures old(IsLive(pages, r)) ==>
                && Valid() && pages == WithoutRecord(old(pages), r)
                && Sorted(old(freeMap)) && freeMap == Reentered(old(freeMap), old(pages), pages, r.page)
      ensures old(OnePast(pages, r)) ==>
                && pages == old(pages) && Page(r.page) == StrayRemoved(old(Page(r.page)), r.slot)
                && freeMap == ErasedIndex(old(freeMap), old(Page(r.page)), r.slot, slot, r.page)
                && forall q: nat :: q < |pages| && q != r.page ==> Page(q) == old(Page(q))
    {
      hide PageGood, IsDocument, WordBytes, WordOf, ErasedPage, ErasedIndex;
      ghost var bs, ps, m := Bytes(), pages, freeMap;
      GoodIndex(bs, ps, m);
      EraseSlot(body[r.page / PAGES_PER_SEGMENT], Base(r.page), r.slot, slot, r.page);
      if IsLive(ps, r) {
        pages := WithoutRecord(pages, r);
        OthersKept(r.page);
        ErasedGood(bs, ps, m, r);
        ErasedEntry(bs, ps, m, r);
      } else {
        OthersKept(r.page);
        assert forall q: nat :: q < |pages| && q != r.page ==> Bytes()[q] == bs[q];
      }
    }

    /**
     `_loadData` on a file whose pages are well formed: the index it rebuilds numbers the pages of
     every segment from zero, so it is the right index exactly for files of at most one segment.
     */
    method LoadData(disk: seq<array<byte>>, numPages: nat, ghost ps: seq<PageState>) returns (rc: Code)
      requires body == [] && freeMap == []
      requires |disk| == numPages / PAGES_PER_SEGMENT && |ps| == numPages
      requires forall i :: 0 <= i < |disk| ==> disk[i].Length == SEGMENT_SIZE
      requires forall i, j :: 0 <= i < j < |disk| ==> disk[i] != disk[j]
      requires numPages % PAGES_PER_SEGMENT == 0 ==> forall p :: 0 <= p < |ps| ==>
          PageGood(PageOf(disk[p / PAGES_PER_SEGMENT], Base(p)), ps[p])
      modifies this
      ensures rc == SYS <==> numPages % PAGES_PER_SEGMENT != 0
      ensures rc == SYS || rc == OK
      ensures rc == OK ==> body == disk && pages == ps && Sorted(freeMap) && multiset(freeMap) == LoadedIndex(ps)
      ensures rc == OK ==> (Valid() <==> numPages <= PAGES_PER_SEGMENT)
    {
      if numPages % PAGES_PER_SEGMENT != 0 {
        return SYS;
      }
      headerPages := numPages;
      pages := ps;
      hide PageGood, Index, LoadedIndex, Sorted, SegmentPage;
      forall i, k | 0 <= i < |disk| && 0 <= k < PAGES_PER_SEGMENT
        ensures SegmentPage(disk, i, k, ps)
      {
        OnSegment(disk, i, k, ps);
      }
      LoadSegments(disk, ps);
      LoadedValid();
      rc := OK;
    }

    static lemma OnSegment(disk: seq<array<byte>>, i: nat, k: nat, ps: seq<PageState>)
      requires i < |disk| && k < PAGES_PER_SEGMENT && |ps| == |disk| * PAGES_PER_SEGMENT
          && disk[i].Length == SEGMENT_SIZE
      requires disk[(i * PAGES_PER_SEGMENT + k) / PAGES_PER_SEGMENT].Length == SEGMENT_SIZE
      requires PageGood(PageOf(disk[(i * PAGES_PER_SEGMENT + k) / PAGES_PER_SEGMENT],
          Base(i * PAGES_PER_SEGMENT + k)), ps[i * PAGES_PER_SEGMENT + k])
      ensures disk[i].Length == SEGMENT_SIZE && i * PAGES_PER_SEGMENT + k < |ps|
      ensures PageGood(PageOf(disk[i], PAGESIZE * k), ps[i * PAGES_PER_SEGMENT + k])
    {
      hide PageGood;
      var p := i * PAGES_PER_SEGMENT + k;
      assert p / PAGES_PER_SEGMENT == i && p % PAGES_PER_SEGMENT == k;
    }

    lemma LoadedValid()
      requires Shape() && Sorted(freeMap) && multiset(freeMap) == LoadedIndex(pages)
      requires forall p :: 0 <= p < |pages| ==> PageGood(PageOf(body[p / PAGES_PER_SEGMENT], Base(p)), pages[p])
      ensures Valid() <==> |pages| <= PAGES_PER_SEGMENT
    {
      hide PageGood, Index, LoadedIndex, Sorted;
      LoadedRight(pages);
      forall p | 0 <= p < |pages|
        ensures PageGood(Bytes()[p], pages[p])
      {
      }
    }

    method LoadSegments(disk: seq<array<byte>>, ghost ps: seq<PageState>)
      requires body == [] && freeMap == [] && |ps| == |disk| * PAGES_PER_SEGMENT
      requires forall i :: 0 <= i < |disk| ==> disk[i].Length == SEGMENT_SIZE
      requires forall i, k :: 0 <= i < |disk| && 0 <= k < PAGES_PER_SEGMENT ==> SegmentPage(disk, i, k, ps)
      modifies this`freeMap, this`body
      ensures body == disk && Sorted(freeMap) && multiset(freeMap) == LoadedIndex(ps)
    {
      hide LoadedIndex, SegmentPage;
      var i := 0;
      assert ps[..0] == [];
      LoadedEmpty();
      while i < |disk|
        invariant 0 <= i <= |disk| && body == disk[..i]
        invariant Sorted(freeMap) && multiset(freeMap) == LoadedIndex(ps[..i * PAGES_PER_SEGMENT])
      {
        body := body + [disk[i]];
        LoadSegment(disk, i, ps);
        i := i + 1;
      }
      assert ps[..|ps|] == ps && disk[..|disk|] == disk;
    }

    method LoadSegment(disk: seq<array<byte>>, i: nat, ghost ps: seq<PageState>)
      requires i < |disk| && disk[i].Length == SEGMENT_SIZE && (i + 1) * PAGES_PER_SEGMENT <= |ps|
      requires forall k :: 0 <= k < PAGES_PER_SEGMENT ==> SegmentPage(disk, i, k, ps)
      requires Sorted(freeMap) && multiset(freeMap) == LoadedIndex(ps[..i * PAGES_PER_SEGMENT])
      modifies this`freeMap
      ensures Sorted(freeMap) && multiset(freeMap) == LoadedIndex(ps[..(i + 1) * PAGES_PER_SEGMENT])
    {
      hide LoadedIndex, Sorted, InsertEntry, PageGood, EntryFor;
      var k := 0;
      while k < PAGES_PER_SEGMENT
        invariant k <= PAGES_PER_SEGMENT
        invariant Sorted(freeMap) && multiset(freeMap) == LoadedIndex(ps[..i * PAGES_PER_SEGMENT + k])
      {
        assert SegmentPage(disk, i, k, ps);
        EntryShown(PageOf(disk[i], PAGESIZE * k), ps[i * PAGES_PER_SEGMENT + k], k);
        LoadedNext(ps, i * PAGES_PER_SEGMENT + k, k);
        freeMap := InsertEntry(freeMap, Entry(ReadWord(disk[i], PAGESIZE * k, AT_FREE_SPACE), k));
        k := k + 1;
      }
    }

    ghost predicate SegmentPage(disk: seq<array<byte>>, i: nat, k: nat, ps: seq<PageState>)
      requires i < |disk| && disk[i].Length == SEGMENT_SIZE && k < PAGES_PER_SEGMENT
      requires i * PAGES_PER_SEGMENT + k < |ps|
      reads disk[i]
    {
      PageGood(PageOf(disk[i], PAGESIZE * k), ps[i * PAGES_PER_SEGMENT + k])
    }
  }

  /** The index as `_loadData` builds it: page ids start again at zero in every segment. */
  ghost function LoadedIndex(ps: seq<PageState>): multiset<Entry> {
    if ps == [] then multiset{}
    else LoadedIndex(ps[..|ps| - 1]) + multiset{EntryFor(ps[|ps| - 1], (|ps| - 1) % PAGES_PER_SEGMENT)}
  }

  lemma LoadedEmpty()
    ensures LoadedIndex([]) == multiset{}
  {
  }

  lemma LoadedNext(ps: seq<PageState>, p: nat, k: nat)
    requires p < |ps| && p % PAGES_PER_SEGMENT == k
    ensures LoadedIndex(ps[..p + 1]) == LoadedIndex(ps[..p]) + multiset{EntryFor(ps[p], k)}
  {
    hide EntryFor;
    assert ps[..p + 1][..p] == ps[..p];
  }

  lemma EntryShown(b: seq<byte>, s: PageState, k: nat)
    requires PageGood(b, s)
    ensures |b| == PAGESIZE && EntryFor(s, k) == Entry(WordAt(b, AT_FREE_SPACE), k)
  {
    PageWords(b, s);
  }

  lemma {:induction false} LoadedIds(ps: seq<PageState>, e: Entry)
    requires e in LoadedIndex(ps)
    ensures e.page < PAGES_PER_SEGMENT
  {
    if e !in multiset{EntryFor(ps[|ps| - 1], (|ps| - 1) % PAGES_PER_SEGMENT)} {
      LoadedIds(ps[..|ps| - 1], e);
    }
  }

  lemma {:induction false} LoadedSame(ps: seq<PageState>)
    requires |ps| <= PAGES_PER_SEGMENT
    ensures LoadedIndex(ps) == Index(ps)
  {
    hide EntryFor;
    if ps != [] {
      assert (|ps| - 1) % PAGES_PER_SEGMENT == |ps| - 1;
      LoadedSame(ps[..|ps| - 1]);
    }
  }

  /** Page 32 onwards is missing from the rebuilt index: it is right just for a single segment. */
  lemma LoadedRight(ps: seq<PageState>)
    ensures LoadedIndex(ps) == Index(ps) <==> |ps| <= PAGES_PER_SEGMENT
  {
    if |ps| <= PAGES_PER_SEGMENT {
      LoadedSame(ps);
    } else {
      var e := EntryFor(ps[PAGES_PER_SEGMENT], PAGES_PER_SEGMENT);
      IndexOnce(ps, e);
      assert e in Index(ps);
      if e in LoadedIndex(ps) {
        LoadedIds(ps, e);
      }
    }
  }

  /** Slot `k` emptied, the record at `slot` flagged, and the size found there given back. */
  function ErasedPage(b: seq<byte>, k: nat, slot: nat): (c: seq<byte>)
    requires |b| == PAGESIZE && SlotsEnd(k + 1) <= PAGESIZE && slot + RECORD_HEADER <= PAGESIZE
    ensures |c| == PAGESIZE
  {
    var q := Flagged(b, k, slot);
    Splice(q, AT_FREE_SPACE, WordBytes((WordAt(q, AT_FREE_SPACE) + WordAt(q, slot)) % WORD))
  }

  function ErasedIndex(m: Multimap, b: seq<byte>, k: nat, slot: nat, p: nat): (n: Multimap)
    requires |b| == PAGESIZE && SlotsEnd(k + 1) <= PAGESIZE && slot + RECORD_HEADER <= PAGESIZE && Sorted(m)
    ensures Sorted(n)
  {
    var q := Flagged(b, k, slot);
    InsertEntry(Without(m, Entry(WordAt(q, AT_FREE_SPACE), p)),
                Entry((WordAt(q, AT_FREE_SPACE) + WordAt(q, slot)) % WORD, p))
  }

  lemma ErasedUnfold(m: Multimap, b: seq<byte>, k: nat, slot: nat, p: nat, q: seq<byte>)
    requires |b| == PAGESIZE && SlotsEnd(k + 1) <= PAGESIZE && slot + RECORD_HEADER <= PAGESIZE && Sorted(m)
    requires q == Flagged(b, k, slot)
    ensures var free, now := WordAt(q, AT_FREE_SPACE), (WordAt(q, AT_FREE_SPACE) + WordAt(q, slot)) % WORD;
            && ErasedPage(b, k, slot) == Splice(q, AT_FREE_SPACE, WordBytes(now))
            && ErasedIndex(m, b, k, slot, p) == InsertEntry(Without(m, Entry(free, p)), Entry(now, p))
  {
    hide WordAt, WordBytes, Splice, Flagged, InsertEntry, Without, Sorted;
  }

  /** On a live slot the writes of `remove` lead from a good file to a good file without that record. */
  lemma ErasedGood(bs: seq<seq<byte>>, ps: seq<PageState>, m: Multimap, r: Rid)
    requires Good(bs, ps, m) && IsLive(ps, r)
    ensures |bs[r.page]| == PAGESIZE && SlotsEnd(r.slot + 1) <= PAGESIZE
    ensures ps[r.page].cells[r.slot].off + RECORD_HEADER <= PAGESIZE
    ensures var slot := ps[r.page].cells[r.slot].off;
            Good(bs[r.page := ErasedPage(bs[r.page], r.slot, slot)], WithoutRecord(ps, r),
                 ErasedIndex(m, bs[r.page], r.slot, slot, r.page))
  {
    hide PageGood, EntryFor, IsDocument, WordBytes, WordOf, InsertEntry, Without, Flagged, Splice;
    var b, s := bs[r.page], ps[r.page];
    var slot := s.cells[r.slot].off;
    assert PageGood(b, s);
    DroppedGood(b, s, r);
    GoodAfter(bs, ps, m, r.page, ErasedPage(b, r.slot, slot), s.(cells := s.cells[r.slot := Gone]),
              ErasedIndex(m, b, r.slot, slot, r.page));
  }

  lemma ErasedEntry(bs: seq<seq<byte>>, ps: seq<PageState>, m: Multimap, r: Rid)
    requires Good(bs, ps, m) && IsLive(ps, r)
    ensures |bs[r.page]| == PAGESIZE && SlotsEnd(r.slot + 1) <= PAGESIZE
    ensures ps[r.page].cells[r.slot].off + RECORD_HEADER <= PAGESIZE
    ensures ErasedIndex(m, bs[r.page], r.slot, ps[r.page].cells[r.slot].off, r.page)
            == Reentered(m, ps, WithoutRecord(ps, r), r.page)
  {
    hide PageGood, EntryFor, IsDocument, WordAt, WordBytes, Splice, InsertEntry, Without, Flagged, Index, Sorted;
    assert PageGood(bs[r.page], ps[r.page]);
    DroppedGood(bs[r.page], ps[r.page], r);
  }

  ghost function WithoutRecord(ps: seq<PageState>, r: Rid): (qs: seq<PageState>)
    requires r.page < |ps| && r.slot < |ps[r.page].cells|
    ensures |qs| == |ps|
  {
    ps[r.page := ps[r.page].(cells := ps[r.page].cells[r.slot := Gone])]
  }

  /** A page after `remove` has followed the stray word behind its slots. */
  function StrayRemoved(b: seq<byte>, k: nat): (c: seq<byte>)
    requires |b| == PAGESIZE && SlotsEnd(k + 1) <= PAGESIZE
    ensures |c| == PAGESIZE
  {
    var w := SlotAt(b, k);
    if w + RECORD_HEADER > PAGESIZE then b else ErasedPage(b, k, w)
  }

  /** On a live slot, the same writes are exactly a removal. */
  lemma DroppedGood(b: seq<byte>, s: PageState, r: Rid)
    requires PageGood(b, s) && r.slot < |s.cells| && s.cells[r.slot].At?
    ensures |b| == PAGESIZE && SlotsEnd(r.slot + 1) <= PAGESIZE && s.cells[r.slot].off + RECORD_HEADER <= PAGESIZE
    ensures var q := Flagged(b, r.slot, s.cells[r.slot].off);
            var s' := s.(cells := s.cells[r.slot := Gone]);
            var free, now := WordAt(q, AT_FREE_SPACE),
                (WordAt(q, AT_FREE_SPACE) + WordAt(q, s.cells[r.slot].off)) % WORD;
            && EntryFor(s, r.page) == Entry(free, r.page) && EntryFor(s', r.page) == Entry(now, r.page)
            && PageGood(Splice(q, AT_FREE_SPACE, WordBytes(now)), s')
  {
    hide WordBytes, WordOf, RecordBytes, IsDocument, Splice, Packed, Ordered, CellShown, UsedTo;
    var cell := s.cells[r.slot];
    var c' := s.cells[r.slot := Gone];
    PageWords(b, s);
    FlaggedShows(b, s.cells, s.freeOffset, FreeSpace(s.cells), r.slot);
    FlaggedSize(b, cell, r.slot);
    DropPlaced(s.cells, s.freeOffset, r.slot);
    UsedFits(c', s.freeOffset);
    FreeSpaceWritten(Flagged(b, r.slot, cell.off), c', s.freeOffset, FreeSpace(s.cells), FreeSpace(c'));
  }

  /** The size word of a record survives the flagging of the record. */
  lemma FlaggedSize(b: seq<byte>, cell: Cell, k: nat)
    requires |b| == PAGESIZE && SlotsEnd(k + 1) <= PAGESIZE && CellShown(b, cell, k)
    requires cell.At? && IsDocument(cell.doc) && SlotsEnd(k + 1) <= cell.off
    ensures WordAt(Flagged(b, k, cell.off), cell.off) == cell.Size()
  {
    CellWords(b, cell, k);
    WordUpdate(b, SlotsEnd(k), SLOT_EMPTY, cell.off);
    WordUpdate(Splice(b, SlotsEnd(k), WordBytes(SLOT_EMPTY)), cell.off + 4, FLAG_DROPPED, cell.off);
  }

  lemma CellsFit(bs: seq<seq<byte>>, ps: seq<PageState>, m: Multimap, p: nat)
    requires Good(bs, ps, m) && p < |ps|
    ensures SlotsEnd(|ps[p].cells|) <= PAGESIZE
  {
    assert PageGood(bs[p], ps[p]);
  }

  /** What the bytes behind an issued slot say. */
  lemma CellRead(bs: seq<seq<byte>>, ps: seq<PageState>, m: Multimap, r: Rid)
    requires Good(bs, ps, m) && r.page < |ps| && r.slot < |ps[r.page].cells|
    ensures |bs[r.page]| == PAGESIZE && SlotsEnd(|ps[r.page].cells|) <= PAGESIZE
    ensures var b, cell := bs[r.page], ps[r.page].cells[r.slot];
            && SlotAt(b, r.slot) == cell.SlotWord()
            && (cell.At? ==>
                  && cell.off + cell.Size() <= PAGESIZE && 5 <= |cell.doc|
                  && WordAt(b, cell.off) == cell.Size()
                  && WordAt(b, cell.off + 4) == FLAG_NORMAL
                  && WordAt(b, cell.off + RECORD_HEADER) == |cell.doc|
                  && b[cell.off + RECORD_HEADER..cell.off + cell.Size()] == cell.doc)
  {
    hide WordBytes, WordOf, RecordBytes, Packed, Ordered;
    var b, s := bs[r.page], ps[r.page];
    assert PageGood(b, s);
    assert CellShown(b, s.cells[r.slot], r.slot);
    if s.cells[r.slot].At? {
      CellWords(b, s.cells[r.slot], r.slot);
    }
  }

  /** The answer that a slot word leads to: flag first, then the size the document starts with. */
  function AnswerAt(b: seq<byte>, slot: nat): Answer
    requires |b| == PAGESIZE
  {
    if slot == SLOT_EMPTY then NotFound
    else if slot + RECORD_HEADER > PAGESIZE then Stray
    else if WordAt(b, slot + 4) == FLAG_DROPPED then NotFound
    else if slot + RECORD_HEADER + 4 > PAGESIZE then Stray
    else
      var size := WordAt(b, slot + RECORD_HEADER);
      if size == 0 || size > MAX_BSON then Throws
      else if slot + RECORD_HEADER + size > PAGESIZE then Stray
      else Found(b[slot + RECORD_HEADER..slot + RECORD_HEADER + size])
  }

  /** In a good file the slot word of a record leads to its document, and an empty slot to nothing. */
  lemma CellAnswer(bs: seq<seq<byte>>, ps: seq<PageState>, m: Multimap, r: Rid)
    requires Good(bs, ps, m) && r.page < |ps| && r.slot < |ps[r.page].cells|
    ensures |bs[r.page]| == PAGESIZE && SlotsEnd(r.slot + 1) <= PAGESIZE
    ensures AnswerAt(bs[r.page], SlotAt(bs[r.page], r.slot)) ==
            if IsLive(ps, r) then Found(ps[r.page].cells[r.slot].doc) else NotFound
  {
    hide Good, WordAt, SlotAt;
    CellRead(bs, ps, m, r);
  }

  lemma FreshHasRoom(ps: seq<PageState>, required: nat)
    requires required < PAGESIZE - PAGE_HEADER
    ensures var qs := ps + NewPages(PAGES_PER_SEGMENT);
            |ps| < |qs| && required < FreeSpace(qs[|ps|].cells)
  {
  }

  /** A record whose size plus header reaches the free space of a fresh page is found no page, ever. */
  lemma OversizeNeverFits(bs: seq<seq<byte>>, ps: seq<PageState>, m: Multimap, size: nat)
    requires Good(bs, ps, m)
    ensures size + RECORD_HEADER >= PAGESIZE - PAGE_HEADER ==> NoneAbove(m, size + RECORD_HEADER)
  {
    FindGood(bs, ps, m, size + RECORD_HEADER);
  }

  lemma IndexSize(m: Multimap, ps: seq<PageState>)
    requires multiset(m) == Index(ps)
    ensures |m| == |ps|
  {
    IndexOnce(ps, Entry(0, 0));
    assert |multiset(m)| == |m|;
  }

  lemma CompactedLength(c: Layout, u: Layout)
    requires CompactedTo(c, u, |c|)
    ensures |c| == |u|
  {
  }

  lemma UpperChosen(m: Multimap, required: nat)
    ensures Sorted(m) && UpperBound(m, required) < |m| ==> Chosen(m, required, m[UpperBound(m, required)].page)
    ensures Sorted(m) ==> (UpperBound(m, required) == |m| <==> NoneAbove(m, required))
  {
    var i := UpperBound(m, required);
    if Sorted(m) && i < |m| {
      assert m[i].page == m[i].page && required < m[i].free;
    }
  }

  /** The entries of `k` empty pages, in the order of the pages. */
  function NewEntries(n: nat, k: nat): (r: Multimap)
    ensures |r| == k && forall j :: 0 <= j < k ==> r[j] == Entry(PAGESIZE - PAGE_HEADER, n + j)
  {
    seq(k, j requires 0 <= j < k => Entry(PAGESIZE - PAGE_HEADER, n + j))
  }

  /** Where no page has as much room as an empty one the new entries come last. */
  lemma {:induction false} NewAtEnd(m: Multimap, n: nat, k: nat)
    requires Sorted(m) && forall j :: 0 <= j < |m| ==> m[j].free <= PAGESIZE - PAGE_HEADER
    ensures WithNew(m, n, k) == m + NewEntries(n, k)
  {
    hide *;
    WithNewUnfold(m, n, k);
    if k > 0 {
      NewAtEnd(m, n, k - 1);
      LastNew(m, n, k - 1);
    } else {
      NoneNew(m, n);
    }
  }

  lemma WithNewUnfold(m: Multimap, n: nat, k: nat)
    requires Sorted(m)
    ensures WithNew(m, n, k) ==
            if k == 0 then m else InsertEntry(WithNew(m, n, k - 1), Entry(PAGESIZE - PAGE_HEADER, n + k - 1))
  {
    hide InsertEntry;
  }

  lemma NoneNew(m: Multimap, n: nat)
    ensures m + NewEntries(n, 0) == m
  {
  }

  lemma LastNew(m: Multimap, n: nat, k: nat)
    requires Sorted(m + NewEntries(n, k)) && forall j :: 0 <= j < |m| ==> m[j].free <= PAGESIZE - PAGE_HEADER
    ensures InsertEntry(m + NewEntries(n, k), Entry(PAGESIZE - PAGE_HEADER, n + k)) == m + NewEntries(n, k + 1)
  {
    hide InsertEntry;
    var e := Entry(PAGESIZE - PAGE_HEADER, n + k);
    InsertedLast(m + NewEntries(n, k), e);
    assert NewEntries(n, k) + [e] == NewEntries(n, k + 1);
    assert m + NewEntries(n, k) + [e] == m + (NewEntries(n, k) + [e]);
  }

  /** So the first new page is chosen where there was no room. */
  lemma NewChosen(m: Multimap, n: nat, required: nat, p: nat)
    requires Sorted(m) && NoneAbove(m, required) && required < PAGESIZE - PAGE_HEADER
    requires Chosen(WithSegment(m, n), required, p)
    ensures p == n
  {
    NewAtEnd(m, n, PAGES_PER_SEGMENT);
    hide WithNew;
    var r := m + NewEntries(n, PAGES_PER_SEGMENT);
    var i :| 0 <= i < |r| && r[i].page == p && required < r[i].free && forall j :: 0 <= j < i ==> r[j].free <= required;
    assert r[|m|] == Entry(PAGESIZE - PAGE_HEADER, n) && forall j :: 0 <= j < |m| ==> r[j] == m[j];
    assert i == |m|;
  }

  /** In a good file the index answers for the pages: a page is found exactly when one has room. */
  lemma FindGood(bs: seq<seq<byte>>, ps: seq<PageState>, m: Multimap, required: nat)
    requires Good(bs, ps, m)
    ensures Sorted(m)
    ensures NoneAbove(m, required) <==> !exists q: nat :: q < |ps| && required < FreeSpace(ps[q].cells)
    ensures forall p: nat :: Chosen(m, required, p) ==> p < |ps| && required < FreeSpace(ps[p].cells)
  {
    hide Chosen, NoneAbove, FreeSpace;
    FindAgrees(m, ps, required);
    forall q | 0 <= q < |ps|
      ensures EntryFor(ps[q], q).free == FreeSpace(ps[q].cells)
    {
      assert PageGood(bs[q], ps[q]);
    }
  }

  lemma SameDocsRefl(ps: seq<PageState>)
    ensures SameDocs(ps, ps)
  {
  }

  /** What the header of a well-formed page says. */
  lemma PageWords(b: seq<byte>, s: PageState)
    requires PageGood(b, s)
    ensures |b| == PAGESIZE && b[0..4] == EYECATCHER
    ensures WordAt(b, AT_NUM_SLOTS) == |s.cells| && WordAt(b, AT_SLOT_OFFSET) == SlotsEnd(|s.cells|)
    ensures WordAt(b, AT_FREE_SPACE) == FreeSpace(s.cells) && WordAt(b, AT_FREE_OFFSET) == s.freeOffset
    ensures SlotsEnd(|s.cells|) <= s.freeOffset <= PAGESIZE
    ensures s.freeOffset - SlotsEnd(|s.cells|) <= FreeSpace(s.cells)
  {
    UsedFits(s.cells, s.freeOffset);
  }

  /** The page once `_updateFreeSpace` has charged it for document `d`. */
  function CountedPage(q: seq<byte>, d: seq<byte>): (b: seq<byte>)
    requires |q| == PAGESIZE
    ensures |b| == PAGESIZE
  {
    Splice(q, AT_FREE_SPACE, WordBytes((WordAt(q, AT_FREE_SPACE) - (|d| + SLOT_SIZE + RECORD_HEADER)) % WORD))
  }

  function CountedIndex(m: Multimap, q: seq<byte>, d: seq<byte>, p: nat): (n: Multimap)
    requires |q| == PAGESIZE && Sorted(m)
    ensures Sorted(n)
  {
    InsertEntry(Without(m, Entry(WordAt(q, AT_FREE_SPACE), p)),
                Entry((WordAt(q, AT_FREE_SPACE) - (|d| + SLOT_SIZE + RECORD_HEADER)) % WORD, p))
  }

  /** The free-space update completes an insert into a well-formed page. */
  lemma CountedEntries(m: Multimap, q: seq<byte>, d: seq<byte>, p: nat)
    requires |q| == PAGESIZE && Sorted(m)
    ensures var free, now := WordAt(q, AT_FREE_SPACE),
        (WordAt(q, AT_FREE_SPACE) - (|d| + SLOT_SIZE + RECORD_HEADER)) % WORD;
            multiset(CountedIndex(m, q, d, p)) == multiset(m) - multiset{Entry(free, p)} + multiset{Entry(now, p)}
  {
    hide WordAt, InsertEntry, Without, Sorted;
  }

  lemma RecordCounted(q: seq<byte>, s: PageState, s': PageState, d: seq<byte>, p: nat)
    requires |d| + RECORD_HEADER <= s.freeOffset && |q| == PAGESIZE
    requires s' == PageState(s.cells + [At(s.freeOffset - RECORD_HEADER - |d|, d)], s.freeOffset - RECORD_HEADER - |d|)
    ensures Uncounted(q, s.cells, s'.freeOffset, d) ==>
              var free, now := WordAt(q, AT_FREE_SPACE),
                  (WordAt(q, AT_FREE_SPACE) - (|d| + SLOT_SIZE + RECORD_HEADER)) % WORD;
              && PageGood(CountedPage(q, d), s')
              && EntryFor(s, p) == Entry(free, p) && EntryFor(s', p) == Entry(now, p)
  {
    hide IsDocument, WordOf, WordBytes, RecordBytes, Splice, Packed, Ordered, CellShown, UsedTo;
    if Uncounted(q, s.cells, s'.freeOffset, d) {
      UsedFits(s'.cells, s'.freeOffset);
      FreeSpaceWritten(q, s'.cells, s'.freeOffset, FreeSpace(s.cells), FreeSpace(s'.cells));
    }
  }

  /** The entry `insert` takes out is the page's, and the one it puts in is that of the page with its record. */
  lemma PutEntry(bs: seq<seq<byte>>, ps: seq<PageState>, m: Multimap, p: nat, d: seq<byte>, q: seq<byte>)
    requires Good(bs, ps, m) && p < |ps| && |q| == PAGESIZE && |d| + RECORD_HEADER <= ps[p].freeOffset
    ensures Uncounted(q, ps[p].cells, ps[p].freeOffset - RECORD_HEADER - |d|, d) ==>
              CountedIndex(m, q, d, p) == Reentered(m, ps, WithRecord(ps, p, d), p)
  {
    hide PageGood, EntryFor, IsDocument, WordAt, InsertEntry, Without, CountedPage, Uncounted, FreeSpace, Index, Sorted;
    var s, off := ps[p], ps[p].freeOffset - RECORD_HEADER - |d|;
    if Uncounted(q, s.cells, off, d) {
      RecordCounted(q, s, PageState(s.cells + [At(off, d)], off), d, p);
    }
  }

  /** The writes of `insert` lead from a good file to a good file with one more record. */
  lemma PutGood(bs: seq<seq<byte>>, ps: seq<PageState>, m: Multimap, p: nat, d: seq<byte>, q: seq<byte>)
    requires Good(bs, ps, m) && p < |ps| && |q| == PAGESIZE && |d| + RECORD_HEADER <= ps[p].freeOffset
    ensures Uncounted(q, ps[p].cells, ps[p].freeOffset - RECORD_HEADER - |d|, d) ==>
              Good(bs[p := CountedPage(q, d)], WithRecord(ps, p, d), CountedIndex(m, q, d, p))
  {
    hide PageGood, EntryFor, IsDocument, WordAt, InsertEntry, Without, CountedPage, CountedIndex, Uncounted,
      FreeSpace, Index, Sorted;
    var s, off := ps[p], ps[p].freeOffset - RECORD_HEADER - |d|;
    var s' := PageState(s.cells + [At(off, d)], off);
    if Uncounted(q, s.cells, off, d) {
      RecordCounted(q, s, s', d, p);
      CountedEntries(m, q, d, p);
      GoodAfter(bs, ps, m, p, CountedPage(q, d), s', CountedIndex(m, q, d, p));
    }
  }
}
