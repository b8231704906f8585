/**
 Whole runs of the heap file: every sequence of inserts, removes and finds behaves as a map from
 record id to document in which ids are never used twice.
 */
module HeapHistory {
  import opened Bytes
  import opened DmsPage
  import opened FreeMap
  import opened DmsFile
  import opened FreeOrder

  datatype Store = Store(live: map<Rid, seq<byte>>, issued: set<Rid>)

  datatype Op = PutOp(doc: seq<byte>, hasId: bool, fileExtends: bool) | DropOp(rid: Rid) | GetOp(rid: Rid)

  datatype Event =
    | Put(rid: Rid, doc: seq<byte>)
    | PutFailed
    | Dropped(rid: Rid)
    | DropRefused(rid: Rid)
    | Got(rid: Rid, doc: seq<byte>)
    | GotNone(rid: Rid)

  /** The map a caller may believe in. */
  predicate Step(s: Store, e: Event, t: Store) {
    match e
    case Put(r, d) => r !in s.issued && t == Store(s.live[r := d], s.issued + {r})
    case PutFailed => t == s
    case Dropped(r) => r in s.live && t == s.(live := s.live - {r})
    case DropRefused(r) => r !in s.live && t == s
    case Got(r, d) => r in s.live && s.live[r] == d && t == s
    case GotNone(r) => r !in s.live && t == s
  }

  predicate IsRun(ss: seq<Store>, es: seq<Event>) {
    && |ss| == |es| + 1
    && ss[0].live.Keys <= ss[0].issued
    && forall i :: 0 <= i < |es| ==> Step(ss[i], es[i], ss[i + 1])
  }

  /** Live ids have been issued, and ids once issued stay issued. */
  lemma {:induction false} IssuedGrows(ss: seq<Store>, es: seq<Event>, i: nat, j: nat)
    requires IsRun(ss, es) && i <= j < |ss|
    ensures ss[j].live.Keys <= ss[j].issued && ss[i].issued <= ss[j].issued
    decreases j
  {
    if 0 < j {
      IssuedGrows(ss, es, if i < j then i else j - 1, j - 1);
      assert Step(ss[j - 1], es[j - 1], ss[j]);
    }
  }

  /** No two inserts of a run return the same record id. */
  lemma IdsAreFresh(ss: seq<Store>, es: seq<Event>, i: nat, j: nat)
    requires IsRun(ss, es) && i < j < |es| && es[i].Put? && es[j].Put?
    ensures es[i].rid != es[j].rid
  {
    assert Step(ss[i], es[i], ss[i + 1]) && Step(ss[j], es[j], ss[j + 1]);
    IssuedGrows(ss, es, i + 1, j);
  }

  predicate DroppedWithin(es: seq<Event>, r: Rid, i: nat, j: nat)
    requires i <= j <= |es|
  {
    exists k :: i <= k < j && es[k] == Dropped(r)
  }

  /** From an insert on, the id means the inserted document exactly until it is removed. */
  lemma {:induction false} MeansUntilDropped(ss: seq<Store>, es: seq<Event>, i: nat, j: nat)
    requires IsRun(ss, es) && i < j < |ss| && es[i].Put?
    ensures var r := es[i].rid;
            if DroppedWithin(es, r, i, j) then r !in ss[j].live
            else r in ss[j].live && ss[j].live[r] == es[i].doc
    decreases j
  {
    var r := es[i].rid;
    assert Step(ss[j - 1], es[j - 1], ss[j]);
    if j == i + 1 {
      assert !DroppedWithin(es, r, i, j);
    } else {
      MeansUntilDropped(ss, es, i, j - 1);
      assert DroppedWithin(es, r, i, j) <==> DroppedWithin(es, r, i, j - 1) || es[j - 1] == Dropped(r);
      if es[j - 1].Put? {
        IdsAreFresh(ss, es, i, j - 1);
      }
    }
  }

  /** A removed id never resolves again, in no later state of the run. */
  lemma {:induction false} NeverResurrected(ss: seq<Store>, es: seq<Event>, i: nat, j: nat)
    requires IsRun(ss, es) && i < j < |ss| && es[i].Dropped?
    ensures es[i].rid !in ss[j].live && es[i].rid in ss[j].issued
    decreases j
  {
    assert Step(ss[j - 1], es[j - 1], ss[j]);
    IssuedGrows(ss, es, i, i);
    IssuedGrows(ss, es, i, j);
    if i + 1 < j {
      NeverResurrected(ss, es, i, j - 1);
    }
  }

  /** In a run from an empty store, every find that succeeds returns the bytes of the one insert of that id. */
  lemma {:induction false} LiveWasPut(ss: seq<Store>, es: seq<Event>, j: nat, r: Rid) returns (i: nat)
    requires IsRun(ss, es) && ss[0].live == map[] && j < |ss| && r in ss[j].live
    ensures i < j && es[i] == Put(r, ss[j].live[r]) && !DroppedWithin(es, r, i, j)
    decreases j
  {
    assert Step(ss[j - 1], es[j - 1], ss[j]);
    if es[j - 1].Put? && es[j - 1].rid == r {
      i := j - 1;
    } else {
      i := LiveWasPut(ss, es, j - 1, r);
    }
  }

  ghost function StoreOf(ps: seq<PageState>): Store {
    Store(Live(ps), Ids(ps))
  }

  /** The step a successful insert makes, whether or not a segment was added first. */
  lemma PutStep(was: seq<PageState>, ps: seq<PageState>, p: nat, d: seq<byte>)
    requires ps == was || ps == was + NewPages(PAGES_PER_SEGMENT)
    requires p < |ps| && RECORD_HEADER + |d| <= ps[p].freeOffset
    ensures Step(StoreOf(was), Put(Rid(p, |ps[p].cells|), d), StoreOf(WithRecord(ps, p, d)))
  {
    hide Live, Ids, NewPages;
    ExtendStore(was, PAGES_PER_SEGMENT);
    var off := ps[p].freeOffset - RECORD_HEADER - |d|;
    AppendStore(ps, p, At(off, d), off);
  }

  lemma SameStep(was: seq<PageState>, ps: seq<PageState>, now: seq<PageState>)
    requires ps == was || ps == was + NewPages(PAGES_PER_SEGMENT)
    requires SameDocs(ps, now)
    ensures StoreOf(was) == StoreOf(now)
  {
    hide Live, Ids, NewPages;
    ExtendStore(was, PAGES_PER_SEGMENT);
    SameDocsSameStore(ps, now);
  }

  lemma LiveKeys(ps: seq<PageState>)
    ensures Live(ps).Keys <= Ids(ps)
    ensures forall r :: r in Live(ps) <==> IsLive(ps, r)
    ensures forall r :: IsLive(ps, r) ==> Live(ps)[r] == ps[r.page].cells[r.slot].doc
  {
    forall r | IsLive(ps, r)
      ensures r in Ids(ps)
    {
      assert r == Rid(r.page, r.slot);
    }
  }

  /** The two boundaries an operation can hit: an insert that retries forever, and the slot behind the last. */
  ghost predicate Blocked(ps: seq<PageState>, op: Op) {
    match op
    case PutOp(d, hasId, fileExtends) =>
      |d| <= MAX_RECORD && hasId && fileExtends && PAGESIZE - PAGE_HEADER <= |d| + RECORD_HEADER
    case DropOp(r) => OnePast(ps, r)
    case GetOp(r) => OnePast(ps, r)
  }

  // ---- Which answer an operation gets ----

  /**
   What answers depend on: the pages, and for each page a stamp that says when its entry in the index
   was last renewed. `clock` is the next stamp.
   */
  datatype View = View(pages: seq<PageState>, stamps: seq<nat>, clock: nat)

  /** The view shows the pages and orders equally free ones as the index does. */
  ghost predicate Shown(ps: seq<PageState>, m: Multimap, v: View) {
    v.pages == ps && |v.stamps| == |ps| && Aged(m, v.stamps, v.clock)
  }

  /** Every good file has a view. */
  lemma ViewOf(bs: seq<seq<byte>>, ps: seq<PageState>, m: Multimap) returns (v: View)
    requires Good(bs, ps, m)
    ensures Shown(ps, m, v)
  {
    hide Aged, Positions;
    GoodIndex(bs, ps, m);
    v := View(ps, Positions(m, |ps|), |m| + 1);
    PositionsAged(m, ps);
  }

  ghost predicate HasRoom(ps: seq<PageState>, required: nat) {
    exists q: nat :: q < |ps| && required < FreeSpace(ps[q].cells)
  }

  /** What the search of an insert succeeds on: the pages there are, or those and a new segment. */
  ghost function Offered(v: View, required: nat): (o: View) {
    if HasRoom(v.pages, required) then v
    else View(v.pages + NewPages(PAGES_PER_SEGMENT), Stamped(v.stamps, v.clock, PAGES_PER_SEGMENT),
        v.clock + PAGES_PER_SEGMENT)
  }

  /** An insert that is turned away before any page is looked at. */
  ghost predicate TurnedAway(v: View, d: seq<byte>, hasId: bool, fileExtends: bool) {
    |d| > MAX_RECORD || !hasId || (!fileExtends && !HasRoom(v.pages, |d| + RECORD_HEADER))
  }

  /** Success is decided by the contiguous gap of the page that comes first, compaction or not. */
  ghost predicate PutAnswer(v: View, d: seq<byte>, hasId: bool, fileExtends: bool, e: Event) {
    if TurnedAway(v, d, hasId, fileExtends) then
      e == PutFailed
    else
      PutSomewhere(Offered(v, |d| + RECORD_HEADER), d, e)
  }

  ghost predicate PutSomewhere(o: View, d: seq<byte>, e: Event) {
    exists p: nat :: PutAt(o, d, p, e)
  }

  ghost predicate PutAt(o: View, d: seq<byte>, p: nat, e: Event) {
    && First(o.pages, o.stamps, |d| + RECORD_HEADER, p)
    && e == if o.pages[p].freeOffset - SlotsEnd(|o.pages[p].cells|) >= |d| + RECORD_HEADER + SLOT_SIZE
            then Put(Rid(p, |o.pages[p].cells|), d) else PutFailed
  }

  /** The answer operation `op` gets on a file with view `v`. */
  ghost predicate Answers(v: View, op: Op, e: Event) {
    match op
    case PutOp(d, hasId, fileExtends) => PutAnswer(v, d, hasId, fileExtends, e)
    case DropOp(r) => e == if IsLive(v.pages, r) then Dropped(r) else DropRefused(r)
    case GetOp(r) => e == if IsLive(v.pages, r) then Got(r, v.pages[r.page].cells[r.slot].doc) else GotNone(r)
  }

  // ---- What an operation leaves behind ----

  /** The same documents in the same slots, and the same free offsets: no answer tells them apart. */
  ghost predicate Alike(ps: seq<PageState>, qs: seq<PageState>) {
    SameDocs(ps, qs) && forall q: nat :: q < |ps| ==> ps[q].freeOffset == qs[q].freeOffset
  }

  /** The page of a record that is stored or dropped gets the next stamp. */
  ghost predicate Next(v: View, op: Op, e: Event, w: View) {
    match op
    case PutOp(d, hasId, fileExtends) =>
      if TurnedAway(v, d, hasId, fileExtends) then w == v else PutNext(Offered(v, |d| + RECORD_HEADER), d, e, w)
    case DropOp(r) =>
      if e == Dropped(r) then
        && IsLive(v.pages, r) && r.page < |v.stamps|
        && w == View(WithoutRecord(v.pages, r), v.stamps[r.page := v.clock], v.clock + 1)
      else
        w == v
    case GetOp(r) => w == v
  }

  ghost predicate PutNext(o: View, d: seq<byte>, e: Event, w: View) {
    if e.Put? then
      && e.rid.page < |o.pages| && e.rid.page < |o.stamps| && RECORD_HEADER + |d| <= o.pages[e.rid.page].freeOffset
      && w == View(WithRecord(o.pages, e.rid.page, d), o.stamps[e.rid.page := o.clock], o.clock + 1)
    else
      Alike(o.pages, w.pages) && w.stamps == o.stamps && w.clock == o.clock
  }

  lemma OfferedShown(bs: seq<seq<byte>>, ps: seq<PageState>, m: Multimap, v: View, required: nat)
    requires Good(bs, ps, m) && Shown(ps, m, v)
    ensures var o, k := Offered(v, required), Searched(m, required, |ps|);
            && |o.stamps| == |o.pages| && Aged(k, o.stamps, o.clock)
            && o.pages == (if NoneAbove(m, required) then ps + NewPages(PAGES_PER_SEGMENT) else ps)
            && (NoneAbove(m, required) <==> !HasRoom(ps, required))
  {
    hide Aged, Good, WithSegment, NoneAbove, Stamped;
    GoodIndex(bs, ps, m);
    FindGood(bs, ps, m, required);
    assert NoneAbove(m, required) <==> !HasRoom(ps, required);
    AgedSegment(m, v.stamps, v.clock);
    StampedSize(v.stamps, v.clock);
  }

  lemma StampedSize(stamps: seq<nat>, clock: nat)
    ensures |Stamped(stamps, clock, PAGES_PER_SEGMENT)| == |stamps| + PAGES_PER_SEGMENT
  {
  }

  method ExecutePut(h: HeapFile, d: seq<byte>, hasId: bool, fileExtends: bool, ghost v: View)
      returns (e: Event, ghost w: View)
    requires h.Valid() && IsDocument(d) && !Blocked(h.pages, PutOp(d, hasId, fileExtends))
        && Shown(h.pages, h.freeMap, v)
    modifies h, h.Segments()
    ensures fresh(h.Segments() - old(h.Segments()))
    ensures h.Valid() && Shown(h.pages, h.freeMap, w) && Step(old(StoreOf(h.pages)), e, StoreOf(h.pages))
    ensures PutAnswer(v, d, hasId, fileExtends, e) && Next(v, PutOp(d, hasId, fileExtends), e, w)
  {
    ghost var bs, was, m := h.Bytes(), h.pages, h.freeMap;
    hide StoreOf, NewPages, SameDocs, WithRecord, NoneAbove, IsDocument, FreeSpace, Step, Good, PutAnswer, Shown, Next,
      SlotsEnd, IndexMoved, FreshPage;
    assert Good(bs, was, m);
    hide HeapFile.Valid;
    var rc, rid;
    ghost var p;
    rc, rid, p := h.Insert(d, hasId, fileExtends);
    if rc == OK {
      e := Put(rid, d);
      w := StoredAnswer(bs, was, m, v, d, hasId, fileExtends, p, h.pages, h.freeMap, e);
    } else if rc == SYS {
      e := PutFailed;
      w := FullAnswer(bs, was, m, v, d, hasId, fileExtends, p, h.pages, h.freeMap);
    } else {
      e, w := PutFailed, v;
      PutRefused(bs, was, m, v, d, hasId, fileExtends);
      FailedStep(StoreOf(was));
    }
  }

  lemma StoredAnswer(bs: seq<seq<byte>>, was: seq<PageState>, m: Multimap, v: View, d: seq<byte>, hasId: bool,
      fileExtends: bool, p: nat, now: seq<PageState>, k: Multimap, e: Event) returns (w: View)
    requires Good(bs, was, m) && Shown(was, m, v)
    requires |d| <= MAX_RECORD && hasId && (fileExtends || !NoneAbove(m, |d| + RECORD_HEADER))
    requires var need := |d| + RECORD_HEADER;
             var ps := if NoneAbove(m, need) then was + NewPages(PAGES_PER_SEGMENT) else was;
             && p < |ps| && need <= ps[p].freeOffset && IndexMoved(m, need, |was|, ps, now, p, k, true)
             && ps[p].freeOffset - SlotsEnd(|ps[p].cells|) >= need + SLOT_SIZE
             && e == Put(Rid(p, |ps[p].cells|), d) && now == WithRecord(ps, p, d)
    ensures Shown(now, k, w) && Step(StoreOf(was), e, StoreOf(now))
    ensures PutAnswer(v, d, hasId, fileExtends, e) && Next(v, PutOp(d, hasId, fileExtends), e, w)
  {
    var o := Offered(v, |d| + RECORD_HEADER);
    Searching(bs, was, m, v, |d| + RECORD_HEADER);
    hide Shown, StoreOf, Step, PutAnswer, Next, Good, IndexMoved, Offered, Ready, HasRoom, TurnedAway, PutAt, PutNext,
      SlotsEnd, WithRecord, NoneAbove, NewPages;
    NotTurnedAway(v, d, hasId, fileExtends);
    w := StoredOutcome(m, |was|, d, o, p, now, k, e);
    PutStep(was, o.pages, p, d);
    PutAnswered(v, d, hasId, fileExtends, p, e, w);
  }

  lemma FullAnswer(bs: seq<seq<byte>>, was: seq<PageState>, m: Multimap, v: View, d: seq<byte>, hasId: bool,
      fileExtends: bool, p: nat, now: seq<PageState>, k: Multimap) returns (w: View)
    requires Good(bs, was, m) && Shown(was, m, v)
    requires |d| <= MAX_RECORD && hasId && (fileExtends || !NoneAbove(m, |d| + RECORD_HEADER))
    requires var need := |d| + RECORD_HEADER;
             var ps := if NoneAbove(m, need) then was + NewPages(PAGES_PER_SEGMENT) else was;
             && p < |ps| && IndexMoved(m, need, |was|, ps, now, p, k, false)
             && ps[p].freeOffset - SlotsEnd(|ps[p].cells|) < need + SLOT_SIZE
             && SameDocs(ps, now) && |now| == |ps| && forall q: nat :: q < |ps| ==>
                 now[q].freeOffset == ps[q].freeOffset
    ensures Shown(now, k, w) && Step(StoreOf(was), PutFailed, StoreOf(now))
    ensures PutAnswer(v, d, hasId, fileExtends, PutFailed) && Next(v, PutOp(d, hasId, fileExtends), PutFailed, w)
  {
    var o := Offered(v, |d| + RECORD_HEADER);
    Searching(bs, was, m, v, |d| + RECORD_HEADER);
    hide Shown, StoreOf, Step, PutAnswer, Next, Good, IndexMoved, Offered, Ready, HasRoom, TurnedAway, PutAt, PutNext,
      SlotsEnd, NoneAbove, NewPages, SameDocs, Alike;
    NotTurnedAway(v, d, hasId, fileExtends);
    AlikeFrom(o.pages, now);
    w := FullOutcome(m, |was|, d, o, p, now, k);
    SameStep(was, o.pages, now);
    FailedStep(StoreOf(was));
    PutAnswered(v, d, hasId, fileExtends, p, PutFailed, w);
  }

  lemma AlikeFrom(ps: seq<PageState>, qs: seq<PageState>)
    requires SameDocs(ps, qs) && forall q: nat :: q < |ps| ==> qs[q].freeOffset == ps[q].freeOffset
    ensures Alike(ps, qs)
  {
  }

  lemma NotTurnedAway(v: View, d: seq<byte>, hasId: bool, fileExtends: bool)
    requires |d| <= MAX_RECORD && hasId && (fileExtends || HasRoom(v.pages, |d| + RECORD_HEADER))
    ensures !TurnedAway(v, d, hasId, fileExtends)
  {
  }

  lemma PutRefused(bs: seq<seq<byte>>, ps: seq<PageState>, m: Multimap, v: View, d: seq<byte>, hasId: bool,
      fileExtends: bool)
    requires Good(bs, ps, m) && Shown(ps, m, v)
    requires |d| > MAX_RECORD || !hasId || (!fileExtends && NoneAbove(m, |d| + RECORD_HEADER))
    ensures PutAnswer(v, d, hasId, fileExtends, PutFailed) && Next(v, PutOp(d, hasId, fileExtends), PutFailed, v)
  {
    hide Aged, Good, NoneAbove;
    FindGood(bs, ps, m, |d| + RECORD_HEADER);
    NotPut(v, d, hasId, fileExtends);
  }

  /** What the search of an insert finds: the offered pages with their stamps, and an index that is right for them. */
  ghost predicate Ready(m: Multimap, n: nat, required: nat, o: View) {
    && Sorted(m) && |o.stamps| == |o.pages|
    && EntriesRight(Searched(m, required, n), o.pages) && multiset(Searched(m, required, n)) == Index(o.pages)
    && Aged(Searched(m, required, n), o.stamps, o.clock)
  }

  lemma Searching(bs: seq<seq<byte>>, was: seq<PageState>, m: Multimap, v: View, required: nat)
    requires Good(bs, was, m) && Shown(was, m, v)
    ensures var o := Offered(v, required);
            && Ready(m, |was|, required, o)
            && o.pages == (if NoneAbove(m, required) then was + NewPages(PAGES_PER_SEGMENT) else was)
            && (NoneAbove(m, required) <==> !HasRoom(was, required))
  {
    OfferedShown(bs, was, m, v, required);
    SearchedRight(bs, was, m, required, Offered(v, required).pages);
    GoodIndex(bs, was, m);
    hide *;
  }

  /** `Insert` has stored the record: this is the answer, and the view moves on with the file. */
  lemma StoredOutcome(m: Multimap, n: nat, d: seq<byte>, o: View, p: nat, now: seq<PageState>, k: Multimap, e: Event)
      returns (w: View)
    requires var need := |d| + RECORD_HEADER;
             && Ready(m, n, need, o) && p < |o.pages| && need <= o.pages[p].freeOffset
             && IndexMoved(m, need, n, o.pages, now, p, k, true)
             && o.pages[p].freeOffset - SlotsEnd(|o.pages[p].cells|) >= need + SLOT_SIZE
             && e == Put(Rid(p, |o.pages[p].cells|), d) && now == WithRecord(o.pages, p, d)
    ensures Shown(now, k, w) && PutAt(o, d, p, e) && PutNext(o, d, e, w)
  {
    hide WithRecord, FreeSpace, SlotsEnd, Aged, IndexMoved, EntriesRight, First, Searched;
    PlaceMoved(m, |d| + RECORD_HEADER, n, o, now, p, k, true);
    w := View(now, o.stamps[p := o.clock], o.clock + 1);
  }

  /** `Insert` has failed on its page. */
  lemma FullOutcome(m: Multimap, n: nat, d: seq<byte>, o: View, p: nat, now: seq<PageState>, k: Multimap)
      returns (w: View)
    requires var need := |d| + RECORD_HEADER;
             && Ready(m, n, need, o) && p < |o.pages|
             && IndexMoved(m, need, n, o.pages, now, p, k, false)
             && o.pages[p].freeOffset - SlotsEnd(|o.pages[p].cells|) < need + SLOT_SIZE
             && Alike(o.pages, now)
    ensures Shown(now, k, w) && PutAt(o, d, p, PutFailed) && PutNext(o, d, PutFailed, w)
  {
    assert |now| == |o.pages|;
    hide Alike, FreeSpace, SlotsEnd, Aged, IndexMoved, EntriesRight, First, Searched;
    PlaceMoved(m, |d| + RECORD_HEADER, n, o, now, p, k, false);
    w := View(now, o.stamps, o.clock);
  }

  /** The page chosen comes first, and has the next stamp if its entry has been renewed. */
  lemma PlaceMoved(m: Multimap, required: nat, n: nat, o: View, qs: seq<PageState>, p: nat, now: Multimap, stored: bool)
    requires Ready(m, n, required, o) && IndexMoved(m, required, n, o.pages, qs, p, now, stored)
    ensures First(o.pages, o.stamps, required, p) && p < |o.pages|
    ensures if stored then Aged(now, o.stamps[p := o.clock], o.clock + 1) else Aged(now, o.stamps, o.clock)
  {
    hide Aged, EntriesRight, First, Searched, Reentered, Index, Chosen, Sorted;
    var k := Searched(m, required, n);
    ChosenFirst(k, o.pages, o.stamps, o.clock, required, p);
    if stored {
      AgedReentered(k, o.pages, qs, p, o.stamps, o.clock);
    }
  }

  lemma PutAnswered(v: View, d: seq<byte>, hasId: bool, fileExtends: bool, p: nat, e: Event, w: View)
    requires !TurnedAway(v, d, hasId, fileExtends)
    requires var o := Offered(v, |d| + RECORD_HEADER); PutAt(o, d, p, e) && PutNext(o, d, e, w)
    ensures PutAnswer(v, d, hasId, fileExtends, e) && Next(v, PutOp(d, hasId, fileExtends), e, w)
  {
    hide Offered, TurnedAway, PutAt, PutNext;
  }

  lemma NotPut(v: View, d: seq<byte>, hasId: bool, fileExtends: bool)
    requires TurnedAway(v, d, hasId, fileExtends)
    ensures PutAnswer(v, d, hasId, fileExtends, PutFailed) && Next(v, PutOp(d, hasId, fileExtends), PutFailed, v)
  {
    hide TurnedAway;
  }

  lemma FailedStep(s: Store)
    ensures Step(s, PutFailed, s)
  {
  }

  /**
   With the compacted boundary stored, an insert into a page is a put exactly when the page's
   accounted free space covers record and slot, and changes the map in no other way.
   */
  method CompletedInsert(h: HeapFile, p: nat, d: seq<byte>) returns (e: Event)
    requires h.Valid() && p < |h.pages| && IsDocument(d)
    modifies h, h.Segments()
    ensures h.Valid() && Step(old(StoreOf(h.pages)), e, StoreOf(h.pages))
    ensures e == if old(FreeSpace(h.pages[p].cells)) >= |d| + RECORD_HEADER + SLOT_SIZE
                 then Put(Rid(p, |old(h.pages[p].cells)|), d) else PutFailed
  {
    hide StoreOf, SameDocs, WithRecord, IsDocument, FreeSpace, Step, HeapFile.Valid, HeapFile.OnlyPage;
    ghost var was := h.pages;
    var rc, rid, between := h.CompletedInsertInto(p, d);
    SameStep(was, was, between);
    if rc == OK {
      e := Put(rid, d);
      PutStep(between, between, p, d);
    } else {
      e := PutFailed;
      FailedStep(StoreOf(was));
    }
  }

  lemma DropStep(ps: seq<PageState>, r: Rid)
    ensures if IsLive(ps, r) then Step(StoreOf(ps), Dropped(r), StoreOf(WithoutRecord(ps, r)))
            else Step(StoreOf(ps), DropRefused(r), StoreOf(ps))
  {
    hide Live, Ids;
    LiveKeys(ps);
    if IsLive(ps, r) {
      DropStore(ps, r);
    }
  }

  lemma GetStep(ps: seq<PageState>, r: Rid)
    ensures Step(StoreOf(ps), if IsLive(ps, r) then Got(r, ps[r.page].cells[r.slot].doc) else GotNone(r), StoreOf(ps))
  {
    hide Live, Ids;
    LiveKeys(ps);
  }

  method ExecuteDrop(h: HeapFile, r: Rid, ghost v: View) returns (e: Event, ghost w: View)
    requires h.Valid() && !OnePast(h.pages, r) && Shown(h.pages, h.freeMap, v)
    modifies h, h.Segments()
    ensures h.Valid() && fresh(h.Segments() - old(h.Segments()))
    ensures Shown(h.pages, h.freeMap, w) && Step(old(StoreOf(h.pages)), e, StoreOf(h.pages))
    ensures Answers(v, DropOp(r), e) && Next(v, DropOp(r), e, w)
  {
    ghost var bs, was, m := h.Bytes(), h.pages, h.freeMap;
    hide StoreOf, Step, WithoutRecord, Reentered, HeapFile.OnlyPage, IsLive, Sorted, Shown, Answers, Next, Good;
    assert Good(bs, was, m);
    hide HeapFile.Valid;
    var done := h.Remove(r);
    e := if done == Removed then Dropped(r) else DropRefused(r);
    w := DropOutcome(bs, was, m, v, r, h.pages, h.freeMap);
  }

  lemma DropOutcome(bs: seq<seq<byte>>, was: seq<PageState>, m: Multimap, v: View, r: Rid, now: seq<PageState>,
      n: Multimap)
      returns (w: View)
    requires Good(bs, was, m) && Shown(was, m, v)
    requires if IsLive(was, r) then Sorted(m) && now == WithoutRecord(was, r) && n == Reentered(m, was, now, r.page)
             else now == was && n == m
    ensures var e := if IsLive(was, r) then Dropped(r) else DropRefused(r);
            && Shown(now, n, w) && Step(StoreOf(was), e, StoreOf(now))
            && Answers(v, DropOp(r), e) && Next(v, DropOp(r), e, w)
  {
    GoodIndex(bs, was, m);
    w := if IsLive(was, r) then View(now, v.stamps[r.page := v.clock], v.clock + 1) else v;
    DropShown(was, m, v, r, now, n, w);
    DropAnswered(v, r, now, w);
    hide *;
    DropStep(was, r);
  }

  lemma DropShown(was: seq<PageState>, m: Multimap, v: View, r: Rid, now: seq<PageState>, n: Multimap, w: View)
    requires Sorted(m) && multiset(m) == Index(was) && Shown(was, m, v)
    requires if IsLive(was, r)
             then
               && now == WithoutRecord(was, r) && n == Reentered(m, was, now, r.page)
               && w == View(now, v.stamps[r.page := v.clock], v.clock + 1)
             else now == was && n == m && w == v
    ensures Shown(now, n, w)
  {
    hide WithoutRecord, Aged, Index, Reentered, Sorted;
    if IsLive(was, r) {
      AgedReentered(m, was, now, r.page, v.stamps, v.clock);
    }
  }

  lemma DropAnswered(v: View, r: Rid, now: seq<PageState>, w: View)
    requires |v.stamps| == |v.pages|
    requires if IsLive(v.pages, r)
             then now == WithoutRecord(v.pages, r) && w == View(now, v.stamps[r.page := v.clock], v.clock + 1)
             else w == v
    ensures var e := if IsLive(v.pages, r) then Dropped(r) else DropRefused(r);
            Answers(v, DropOp(r), e) && Next(v, DropOp(r), e, w)
  {
    hide WithoutRecord;
  }

  /** One operation gets its answer and is one step of the map, unless it hits a boundary the code leaves open. */
  method Execute(h: HeapFile, op: Op, ghost v: View) returns (e: Event, ran: bool, ghost w: View)
    requires h.Valid() && Shown(h.pages, h.freeMap, v)
    requires op.PutOp? ==> IsDocument(op.doc)
    modifies h, h.Segments()
    ensures fresh(h.Segments() - old(h.Segments()))
    ensures h.Valid() && Shown(h.pages, h.freeMap, w) && ran == !old(Blocked(h.pages, op))
    ensures ran ==> Answers(v, op, e) && Next(v, op, e, w) && Step(old(StoreOf(h.pages)), e, StoreOf(h.pages))
    ensures !ran ==> h.pages == old(h.pages) && w == v
  {
    hide StoreOf, IsDocument, HeapFile.Valid, Step, WithoutRecord, PutAnswer, Aged, TurnedAway, PutNext;
    e, ran, w := PutFailed, false, v;
    match op
    case PutOp(d, hasId, fileExtends) =>
      if |d| > MAX_RECORD || !hasId || !fileExtends || |d| + RECORD_HEADER < PAGESIZE - PAGE_HEADER {
        e, w := ExecutePut(h, d, hasId, fileExtends, v);
        ran := true;
      }
    case DropOp(r) =>
      var past := h.IsOnePast(r);
      if !past {
        e, w := ExecuteDrop(h, r, v);
        ran := true;
      }
    case GetOp(r) =>
      var past := h.IsOnePast(r);
      if !past {
        GetStep(h.pages, r);
        var answer := h.Find(r);
        e, ran := if answer.Found? then Got(r, answer.doc) else GotNone(r), true;
      }
  }

  /**
   A session: each operation answered by what the file holds at that point and leaving behind what it
   must, and the answers a run of the map.
   */
  ghost predicate IsSession(trace: seq<View>, ops: seq<Op>, es: seq<Event>) {
    && |trace| == |es| + 1 && |es| <= |ops|
    && IsRun(Stores(trace), es)
    && forall i :: 0 <= i < |es| ==> Answers(trace[i], ops[i], es[i]) && Next(trace[i], ops[i], es[i], trace[i + 1])
  }

  ghost function Stores(trace: seq<View>): (ss: seq<Store>)
    ensures |ss| == |trace|
  {
    seq(|trace|, i requires 0 <= i < |trace| => StoreOf(trace[i].pages))
  }

  /**
   Every sequence of operations on the file is a session, up to the first operation that names the
   slot behind the last one or would retry forever.
   */
  method ExecuteAll(h: HeapFile, ops: seq<Op>, ghost v: View) returns (es: seq<Event>, ghost trace: seq<View>)
    requires h.Valid() && Shown(h.pages, h.freeMap, v)
    requires forall i :: 0 <= i < |ops| && ops[i].PutOp? ==> IsDocument(ops[i].doc)
    modifies h, h.Segments()
    ensures h.Valid()
    ensures IsSession(trace, ops, es) && trace[0] == v && Shown(h.pages, h.freeMap, trace[|es|])
    ensures |es| < |ops| ==> Blocked(h.pages, ops[|es|])
  {
    hide StoreOf, IsDocument, HeapFile.Valid, IsSession, Blocked, Answers, Step, Next, Aged;
    es, trace := [], [v];
    SessionStart(v, ops);
    while |es| < |ops|
      invariant h.Valid() && |es| <= |ops| && fresh(h.Segments() - old(h.Segments()))
      invariant |trace| == |es| + 1 && IsSession(trace, ops, es) && trace[0] == v
      invariant Shown(h.pages, h.freeMap, trace[|es|])
      decreases |ops| - |es|
    {
      ghost var w;
      var e, ran;
      e, ran, w := Execute(h, ops[|es|], trace[|es|]);
      if !ran {
        return;
      }
      SessionNext(trace, ops, es, e, w);
      es, trace := es + [e], trace + [w];
    }
  }

  lemma SessionStart(v: View, ops: seq<Op>)
    ensures IsSession([v], ops, [])
  {
    hide StoreOf;
    StoreKeys(v.pages);
    RunStart(StoreOf(v.pages));
    assert Stores([v]) == [StoreOf(v.pages)];
  }

  lemma SessionNext(trace: seq<View>, ops: seq<Op>, es: seq<Event>, e: Event, w: View)
    requires IsSession(trace, ops, es) && |es| < |ops| && Answers(trace[|es|], ops[|es|], e)
    requires Next(trace[|es|], ops[|es|], e, w) && Step(StoreOf(trace[|es|].pages), e, StoreOf(w.pages))
    ensures IsSession(trace + [w], ops, es + [e])
  {
    hide StoreOf, Answers, Step, IsRun, Next;
    RunNext(Stores(trace), es, e, StoreOf(w.pages));
    assert Stores(trace + [w]) == Stores(trace) + [StoreOf(w.pages)];
    var tt, fs := trace + [w], es + [e];
    forall i | 0 <= i < |fs|
      ensures Answers(tt[i], ops[i], fs[i]) && Next(tt[i], ops[i], fs[i], tt[i + 1])
    {
      if i < |es| {
        assert Answers(trace[i], ops[i], es[i]) && tt[i] == trace[i] && fs[i] == es[i] && tt[i + 1] == trace[i + 1];
      }
    }
  }

  // ---- What a caller sees ----

  predicate AskedToDrop(ops: seq<Op>, r: Rid, i: nat, j: nat)
    requires j <= |ops|
  {
    exists k :: i <= k < j && ops[k] == DropOp(r)
  }

  lemma AnswerShapes(v: View, op: Op, e: Event)
    requires Answers(v, op, e)
    ensures match op
            case PutOp(d, _, _) => e == PutFailed || (e.Put? && e.doc == d)
            case DropOp(r) => e == Dropped(r) || e == DropRefused(r)
            case GetOp(r) => e == GotNone(r) || (e.Got? && e.rid == r)
    ensures e.Dropped? ==> op == DropOp(e.rid)
  {
    hide TurnedAway, Offered, First;
  }

  /** After a successful insert an id is dropped by the first removal a caller asks for, and by nothing else. */
  lemma {:induction false} DroppedWhenAsked(trace: seq<View>, ops: seq<Op>, es: seq<Event>, i: nat, j: nat)
    requires IsSession(trace, ops, es) && i < j <= |es| && es[i].Put?
    ensures DroppedWithin(es, es[i].rid, i, j) <==> AskedToDrop(ops, es[i].rid, i, j)
    decreases j
  {
    hide Answers, Next, Step, StoreOf;
    var r, ss := es[i].rid, Stores(trace);
    assert Answers(trace[j - 1], ops[j - 1], es[j - 1]) && Step(ss[j - 1], es[j - 1], ss[j]);
    AnswerShapes(trace[j - 1], ops[j - 1], es[j - 1]);
    if j == i + 1 {
      assert !DroppedWithin(es, r, i, j) && !AskedToDrop(ops, r, i, j) by {
        assert es[i] != Dropped(r) && ops[i] != DropOp(r);
      }
    } else {
      DroppedWhenAsked(trace, ops, es, i, j - 1);
      MeansUntilDropped(ss, es, i, j - 1);
      RefusedIsDead(ss[j - 1], es[j - 1], ss[j]);
      assert DroppedWithin(es, r, i, j) <==> DroppedWithin(es, r, i, j - 1) || es[j - 1] == Dropped(r);
      assert AskedToDrop(ops, r, i, j) <==> AskedToDrop(ops, r, i, j - 1) || ops[j - 1] == DropOp(r);
    }
  }

  lemma RefusedIsDead(s: Store, e: Event, t: Store)
    requires Step(s, e, t)
    ensures e.DropRefused? ==> e.rid !in s.live
    ensures e.Dropped? ==> e.rid in s.live
    ensures e.Got? ==> e.rid in s.live && s.live[e.rid] == e.doc
    ensures e.GotNone? ==> e.rid !in s.live
  {
  }

  /**
   The contract of the file over a session: asked for an id an insert returned, `find` gives exactly
   the inserted bytes as long as nobody has asked to remove it, and nothing ever after.
   */
  lemma FindAnswers(trace: seq<View>, ops: seq<Op>, es: seq<Event>, i: nat, j: nat)
    requires IsSession(trace, ops, es) && i < j < |es| && es[i].Put? && ops[j] == GetOp(es[i].rid)
    ensures ops[i].PutOp? && es[i].doc == ops[i].doc
    ensures es[j] == if AskedToDrop(ops, es[i].rid, i, j) then GotNone(es[i].rid) else Got(es[i].rid, ops[i].doc)
  {
    hide Answers, Next, Step, StoreOf;
    var ss := Stores(trace);
    assert Answers(trace[i], ops[i], es[i]) && Answers(trace[j], ops[j], es[j]) && Step(ss[j], es[j], ss[j + 1]);
    AnswerShapes(trace[i], ops[i], es[i]);
    AnswerShapes(trace[j], ops[j], es[j]);
    DroppedWhenAsked(trace, ops, es, i, j);
    MeansUntilDropped(ss, es, i, j);
    RefusedIsDead(ss[j], es[j], ss[j + 1]);
  }

  /** No two inserts of a session are answered with the same id, whatever is removed in between. */
  lemma InsertsAreFresh(trace: seq<View>, ops: seq<Op>, es: seq<Event>, i: nat, j: nat)
    requires IsSession(trace, ops, es) && i < j < |es| && es[i].Put? && es[j].Put?
    ensures es[i].rid != es[j].rid && ops[i].PutOp? && es[i].doc == ops[i].doc
  {
    hide Answers, Next, Step, StoreOf;
    assert Answers(trace[i], ops[i], es[i]);
    AnswerShapes(trace[i], ops[i], es[i]);
    IdsAreFresh(Stores(trace), es, i, j);
  }

  /** The first removal asked for an inserted id succeeds, and every later one is refused. */
  lemma RemoveAnswers(trace: seq<View>, ops: seq<Op>, es: seq<Event>, i: nat, j: nat)
    requires IsSession(trace, ops, es) && i < j < |es| && es[i].Put? && ops[j] == DropOp(es[i].rid)
    ensures es[j] == if AskedToDrop(ops, es[i].rid, i, j) then DropRefused(es[i].rid) else Dropped(es[i].rid)
  {
    hide Answers, Next, Step, StoreOf;
    var ss := Stores(trace);
    assert Answers(trace[j], ops[j], es[j]) && Step(ss[j], es[j], ss[j + 1]);
    AnswerShapes(trace[j], ops[j], es[j]);
    DroppedWhenAsked(trace, ops, es, i, j);
    MeansUntilDropped(ss, es, i, j);
    RefusedIsDead(ss[j], es[j], ss[j + 1]);
  }

  /**
   A removed id never resolves again, also one that was live before the session began: every later
   `find` of it gives nothing and every later removal is refused.
   */
  lemma DroppedStaysGone(trace: seq<View>, ops: seq<Op>, es: seq<Event>, i: nat, j: nat)
    requires IsSession(trace, ops, es) && i < j < |es| && es[i].Dropped?
    ensures ops[i] == DropOp(es[i].rid)
    ensures ops[j] == GetOp(es[i].rid) ==> es[j] == GotNone(es[i].rid)
    ensures ops[j] == DropOp(es[i].rid) ==> es[j] == DropRefused(es[i].rid)
  {
    hide Answers, Next, Step, StoreOf;
    var ss := Stores(trace);
    assert Answers(trace[i], ops[i], es[i]) && Answers(trace[j], ops[j], es[j]) && Step(ss[j], es[j], ss[j + 1]);
    AnswerShapes(trace[i], ops[i], es[i]);
    AnswerShapes(trace[j], ops[j], es[j]);
    NeverResurrected(ss, es, i, j);
    RefusedIsDead(ss[j], es[j], ss[j + 1]);
  }

  /** In a session that starts on an empty file nothing is found, or removed, but what an insert returned before. */
  lemma OnlyInserted(trace: seq<View>, ops: seq<Op>, es: seq<Event>, j: nat) returns (i: nat)
    requires IsSession(trace, ops, es) && trace[0].pages == [] && j < |es| && (es[j].Got? || es[j].Dropped?)
    ensures i < j && es[i].Put? && es[i].rid == es[j].rid && !AskedToDrop(ops, es[j].rid, i, j)
    ensures es[j].Got? ==> es[i].doc == es[j].doc
  {
    hide Answers, Next, Step, StoreOf;
    var ss := Stores(trace);
    EmptyStore();
    assert Step(ss[j], es[j], ss[j + 1]);
    RefusedIsDead(ss[j], es[j], ss[j + 1]);
    i := LiveWasPut(ss, es, j, es[j].rid);
    DroppedWhenAsked(trace, ops, es, i, j);
  }

  lemma EmptyStore()
    ensures StoreOf([]).live == map[]
  {
    LiveKeys([]);
  }

  lemma RunStart(s: Store)
    requires s.live.Keys <= s.issued
    ensures IsRun([s], [])
  {
  }

  lemma RunNext(ss: seq<Store>, es: seq<Event>, e: Event, t: Store)
    requires IsRun(ss, es) && Step(ss[|es|], e, t)
    ensures IsRun(ss + [t], es + [e])
  {
    hide Step;
    var tt, fs := ss + [t], es + [e];
    forall i | 0 <= i < |fs|
      ensures Step(tt[i], fs[i], tt[i + 1])
    {
      if i < |es| {
        assert Step(ss[i], es[i], ss[i + 1]);
      }
    }
  }

  lemma StoreKeys(ps: seq<PageState>)
    ensures StoreOf(ps).live.Keys <= StoreOf(ps).issued
  {
    LiveKeys(ps);
  }

  /** `_findPage` takes the fullest page that has room. */
  lemma FullestPage(h: HeapFile, required: nat, p: nat, q: nat)
    requires h.Valid() && Chosen(h.freeMap, required, q)
    requires p < |h.pages| && required < FreeSpace(h.pages[p].cells)
    ensures q < |h.pages| && required < FreeSpace(h.pages[q].cells) <= FreeSpace(h.pages[p].cells)
  {
    ChosenLeast(h.Bytes(), h.pages, h.freeMap, required, p, q);
  }

  lemma ChosenLeast(bs: seq<seq<byte>>, ps: seq<PageState>, m: Multimap, required: nat, p: nat, q: nat)
    requires Good(bs, ps, m) && Chosen(m, required, q) && p < |ps| && required < FreeSpace(ps[p].cells)
    ensures q < |ps| && required < FreeSpace(ps[q].cells) <= FreeSpace(ps[p].cells)
  {
    GoodSolvent(bs, ps, m);
    IndexEntries(m, ps);
    hide FreeSpace, Good;
    assert Entered(m, ps, p);
    var i :| 0 <= i < |m| && m[i].page == q && required < m[i].free && forall j :: 0 <= j < i ==> m[j].free <= required;
    var j :| 0 <= j < |m| && m[j].page == p && m[j].free == FreeSpace(ps[p].cells);
    assert i <= j;
  }

  /** An empty file has no page to offer. */
  lemma EmptyFile(h: HeapFile, required: nat)
    requires h.Valid() && h.pages == []
    ensures NoneAbove(h.freeMap, required)
  {
    FindGood(h.Bytes(), h.pages, h.freeMap, required);
  }

  /** The state of a new file after one document has been stored in page `p` and removed again. */
  ghost function OnceUsed(p: nat, d: seq<byte>): (ps: seq<PageState>)
    requires p < PAGES_PER_SEGMENT && |d| + RECORD_HEADER <= PAGESIZE
  {
    WithoutRecord(WithRecord(NewPages(PAGES_PER_SEGMENT), p, d), Rid(p, 0))
  }

  lemma OnceUsedPages(p: nat, d: seq<byte>, q: nat)
    requires p < PAGES_PER_SEGMENT && |d| + RECORD_HEADER <= PAGESIZE && q < PAGES_PER_SEGMENT
    ensures |OnceUsed(p, d)| == PAGES_PER_SEGMENT
    ensures OnceUsed(p, d)[q] == if q == p then PageState([Gone], PAGESIZE - RECORD_HEADER - |d|) else FRESH_PAGE
    ensures FreeSpace(OnceUsed(p, d)[q].cells) == PAGESIZE - PAGE_HEADER - if q == p then SLOT_SIZE else 0
    ensures WithRecord([] + NewPages(PAGES_PER_SEGMENT), p, d) == WithRecord(NewPages(PAGES_PER_SEGMENT), p, d)
    ensures ([] + NewPages(PAGES_PER_SEGMENT))[p] == FRESH_PAGE
  {
    assert [] + NewPages(PAGES_PER_SEGMENT) == NewPages(PAGES_PER_SEGMENT);
    var s := WithRecord(NewPages(PAGES_PER_SEGMENT), p, d)[p];
    assert s.cells[0 := Gone] == [Gone];
    UsedAppend([], Gone);
    assert [] + [Gone] == [Gone] && Used([]) == UsedTo([], 0);
  }

  /**
   What a missing store of the compacted boundary costs: in a new file, a document of any size a
   page can hold, inserted and removed, goes in again exactly when two copies of it would have
   fitted side by side, although its page has all the room and 31 pages are empty. The one other
   case is the document that fills a page: its page is not offered again, and another one takes it.
   */
  method InsertRemoveInsert(h: HeapFile, d: seq<byte>) returns (first: Code, rc: Code)
    requires h.Valid() && h.pages == [] && IsDocument(d)
    requires |d| + RECORD_HEADER + SLOT_SIZE <= PAGESIZE - PAGE_HEADER
    modifies h, h.Segments()
    ensures h.Valid() && first == OK && (rc == OK || rc == SYS)
    ensures rc == OK <==>
              || 2 * (|d| + RECORD_HEADER + SLOT_SIZE) <= PAGESIZE - PAGE_HEADER
              || |d| + RECORD_HEADER + SLOT_SIZE == PAGESIZE - PAGE_HEADER
  {
    hide NewPages, SameDocs, WithRecord, Chosen, NoneAbove, IsDocument, HeapFile.Valid, FreeSpace, OnceUsed, IndexMoved,
      SlotsEnd, FreshPage;
    ghost var p;
    first, p := InsertRemove(h, d);
    ghost var m, need, other := h.freeMap, |d| + RECORD_HEADER, if p == 0 then 1 else 0;
    OnceUsedPages(p, d, other);
    NotNone(h, need, other);
    forall q: nat | Chosen(m, need, q)
      ensures q < PAGES_PER_SEGMENT && (q == p <==> need + SLOT_SIZE != PAGESIZE - PAGE_HEADER)
    {
      ChosenAgain(h, d, p, q);
    }
    var again;
    ghost var q;
    rc, again, q := h.Insert(d, true, true);
    MovedChosen(m, need, OnceUsed(p, d), h.pages, q, h.freeMap, rc == OK);
    UsedGap(p, d, q);
  }

  /** The first half: a new file once a document has been stored and removed. */
  method InsertRemove(h: HeapFile, d: seq<byte>) returns (first: Code, ghost p: nat)
    requires h.Valid() && h.pages == [] && IsDocument(d)
    requires |d| + RECORD_HEADER + SLOT_SIZE <= PAGESIZE - PAGE_HEADER
    modifies h, h.Segments()
    ensures fresh(h.Segments() - old(h.Segments()))
    ensures h.Valid() && first == OK && p < PAGES_PER_SEGMENT && h.pages == OnceUsed(p, d)
  {
    hide NewPages, SameDocs, WithRecord, WithoutRecord, NoneAbove, IsDocument, HeapFile.Valid, FreeSpace, OnceUsed,
      IndexMoved, FreshPage, Reentered, HeapFile.OnlyPage;
    EmptyFile(h, |d| + RECORD_HEADER);
    var rid;
    first, rid, p := h.Insert(d, true, true);
    OnceUsedPages(p, d, p);
    assert first == OK && h.pages == WithRecord(NewPages(PAGES_PER_SEGMENT), p, d);
    StoredLive(p, d);
    var done := h.Remove(rid);
    assert h.pages == OnceUsed(p, d) by { OnceUsedIs(p, d); }
  }

  lemma MovedChosen(m: Multimap, required: nat, ps: seq<PageState>, qs: seq<PageState>, p: nat, now: Multimap,
      stored: bool)
    requires IndexMoved(m, required, |ps|, ps, qs, p, now, stored) && !NoneAbove(m, required)
    ensures Chosen(m, required, p)
  {
  }

  lemma UsedGap(p: nat, d: seq<byte>, q: nat)
    requires p < PAGES_PER_SEGMENT && |d| + RECORD_HEADER + SLOT_SIZE <= PAGESIZE - PAGE_HEADER && q < PAGES_PER_SEGMENT
    ensures q < |OnceUsed(p, d)|
    ensures var s := OnceUsed(p, d)[q];
            s.freeOffset - SlotsEnd(|s.cells|) ==
            PAGESIZE - PAGE_HEADER - if q == p then |d| + RECORD_HEADER + SLOT_SIZE else 0
  {
    OnceUsedPages(p, d, q);
  }

  /** The page that was used has a slot less of room, so it is the fullest with room, or has none. */
  lemma ChosenAgain(h: HeapFile, d: seq<byte>, p: nat, q: nat)
    requires h.Valid() && p < PAGES_PER_SEGMENT && |d| + RECORD_HEADER + SLOT_SIZE <= PAGESIZE - PAGE_HEADER
    requires h.pages == OnceUsed(p, d) && Chosen(h.freeMap, |d| + RECORD_HEADER, q)
    ensures q < PAGES_PER_SEGMENT && (q == p <==> |d| + RECORD_HEADER + SLOT_SIZE != PAGESIZE - PAGE_HEADER)
  {
    hide HeapFile.Valid, Chosen, OnceUsed, FreeSpace;
    var need, other := |d| + RECORD_HEADER, if p == 0 then 1 else 0;
    OnceUsedPages(p, d, p);
    OnceUsedPages(p, d, other);
    FullestPage(h, need, other, q);
    OnceUsedPages(p, d, q);
    if need + SLOT_SIZE != PAGESIZE - PAGE_HEADER {
      FullestPage(h, need, p, q);
    }
  }

  lemma OnceUsedIs(p: nat, d: seq<byte>)
    requires p < PAGES_PER_SEGMENT && |d| + RECORD_HEADER <= PAGESIZE
    ensures OnceUsed(p, d) == WithoutRecord(WithRecord(NewPages(PAGES_PER_SEGMENT), p, d), Rid(p, 0))
  {
  }

  lemma StoredLive(p: nat, d: seq<byte>)
    requires p < PAGES_PER_SEGMENT && |d| + RECORD_HEADER <= PAGESIZE
    ensures IsLive(WithRecord(NewPages(PAGES_PER_SEGMENT), p, d), Rid(p, 0))
  {
  }

  lemma NotNone(h: HeapFile, required: nat, p: nat)
    requires h.Valid() && p < |h.pages| && required < FreeSpace(h.pages[p].cells)
    ensures !NoneAbove(h.freeMap, required)
  {
    FindGood(h.Bytes(), h.pages, h.freeMap, required);
  }

  /**
   The slot behind the last one of a fresh page: `find` throws there, and `remove` succeeds and
   leaves a free-space count that no good page has.
   */
  lemma StrayOnFreshPage(b: seq<byte>, s: PageState)
    requires FreshPage(b)
    ensures SlotAt(b, 0) == 0 && AnswerAt(b, 0) == Throws && StrayRemoval(0) == Removed
    ensures WordAt(StrayRemoved(b, 0), AT_FREE_SPACE) > PAGESIZE
    ensures !PageGood(StrayRemoved(b, 0), s)
  {
    StrayFlagged(b);
    hide NewPageHeader, WordBytes, Splice, PageGood, Flagged;
    var q := Flagged(b, 0, 0);
    SpliceWordInside(q, AT_FREE_SPACE, (WordAt(q, AT_FREE_SPACE) + WordAt(q, 0)) % WORD);
    GoodPageFits(StrayRemoved(b, 0), s);
  }

  lemma GoodPageFits(b: seq<byte>, s: PageState)
    ensures |b| == PAGESIZE && PageGood(b, s) ==> WordAt(b, AT_FREE_SPACE) <= PAGESIZE
  {
    if |b| == PAGESIZE && PageGood(b, s) {
      PageWords(b, s);
    }
  }

  /** The stray word 0 makes the page header pass for a record: its size is the eyecatcher. */
  lemma StrayFlagged(b: seq<byte>)
    requires FreshPage(b)
    ensures AnswerAt(b, 0) == Throws
    ensures var q := Flagged(b, 0, 0);
            WordAt(q, 0) == WordOf(EYECATCHER)
                && WordAt(q, AT_FREE_SPACE) == WordAt(b, AT_FREE_SPACE) == PAGESIZE - PAGE_HEADER
  {
    hide NewPageHeader, WordBytes, Splice;
    NewPageWords(b);
    var b1 := Splice(b, SlotsEnd(0), WordBytes(SLOT_EMPTY));
    SpliceOutside(b, SlotsEnd(0), WordBytes(SLOT_EMPTY), 0, 4);
    SpliceOutside(b1, 4, WordBytes(FLAG_DROPPED), 0, 4);
    WordUpdate(b, SlotsEnd(0), SLOT_EMPTY, AT_FREE_SPACE);
    WordUpdate(b1, 4, FLAG_DROPPED, AT_FREE_SPACE);
  }

  /**
   What that slot costs a new file: after its first insert the first slot of an unused page can be
   removed, with success, and the file is not good any more.
   */
  method RemoveBesideInsert(h: HeapFile, d: seq<byte>) returns (rc: Code, answer: Answer, done: Removal)
    requires h.Valid() && h.pages == [] && IsDocument(d)
    requires |d| + RECORD_HEADER + SLOT_SIZE <= PAGESIZE - PAGE_HEADER
    modifies h, h.Segments()
    ensures rc == OK && answer == Throws && done == Removed && !h.Valid()
  {
    hide NewPages, SameDocs, WithRecord, Chosen, NoneAbove, IsDocument, Good, FreeSpace, FreshPage, SlotAt, AnswerAt,
      IndexMoved, ErasedIndex, StrayRemoved, Reentered;
    EmptyFile(h, |d| + RECORD_HEADER);
    var rid;
    ghost var p;
    rc, rid, p := h.Insert(d, true, true);
    assert [] + NewPages(PAGES_PER_SEGMENT) == NewPages(PAGES_PER_SEGMENT);
    var r := Rid(if rid.page == 0 then 1 else 0, 0);
    OtherNew(p, d, r.page);
    ghost var b := h.Page(r.page);
    StrayOnFreshPage(b, FRESH_PAGE);
    answer := h.Find(r);
    done := h.Remove(r);
    if h.Valid() {
      ghost var s := h.pages[r.page];
      StrayOnFreshPage(b, s);
      h.GoodPage(r.page);
    }
  }

  lemma OtherNew(p: nat, d: seq<byte>, q: nat)
    requires p < PAGES_PER_SEGMENT && |d| + RECORD_HEADER <= PAGESIZE && q < PAGES_PER_SEGMENT && q != p
    ensures NewPages(PAGES_PER_SEGMENT)[p] == FRESH_PAGE
    ensures WithRecord(NewPages(PAGES_PER_SEGMENT), p, d)[q] == FRESH_PAGE
  {
  }
}
