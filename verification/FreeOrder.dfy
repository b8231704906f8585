/**
 Which of several equally free pages an insert takes: the one whose entry in the index is oldest.
 A page gets a new stamp whenever its entry is renewed.
 */
module FreeOrder {
  import opened Bytes
  import opened DmsPage
  import opened FreeMap
  import opened DmsFile

  /** Entries of one key stand in the order of their pages' stamps, all of them before `clock`. */
  ghost predicate Aged(m: Multimap, stamps: seq<nat>, clock: nat) {
    && (forall i :: 0 <= i < |m| ==> m[i].page < |stamps|)
    && (forall p :: 0 <= p < |stamps| ==> stamps[p] < clock)
    && (forall i, j :: 0 <= i < j < |m| && m[i].free == m[j].free ==> Older(m, stamps, i, j))
  }

  ghost predicate Older(m: Multimap, stamps: seq<nat>, i: nat, j: nat) {
    && i < |m| && j < |m| && m[i].page < |stamps| && m[j].page < |stamps|
    && stamps[m[i].page] < stamps[m[j].page]
  }

  lemma AgedErased(m: Multimap, i: nat, stamps: seq<nat>, clock: nat)
    requires Sorted(m) && i < |m| && Aged(m, stamps, clock)
    ensures Aged(Erase(m, i), stamps, clock)
  {
    var r := Erase(m, i);
    assert r == m[..i] + m[i + 1..];
    forall k, l | 0 <= k < l < |r| && r[k].free == r[l].free
      ensures Older(r, stamps, k, l)
    {
      var x, y := if k < i then k else k + 1, if l < i then l else l + 1;
      assert r[k] == m[x] && r[l] == m[y] && Older(m, stamps, x, y);
    }
  }

  lemma AgedWithout(m: Multimap, e: Entry, stamps: seq<nat>, clock: nat)
    requires Sorted(m) && Aged(m, stamps, clock)
    ensures Aged(Without(m, e), stamps, clock)
  {
    hide Aged, Erase;
    if e in m {
      AgedErased(m, IndexOf(m, e), stamps, clock);
    }
  }

  /** A new entry is the youngest. */
  lemma AgedInserted(m: Multimap, e: Entry, stamps: seq<nat>, now: seq<nat>, clock: nat)
    requires Sorted(m) && Aged(m, stamps, clock)
    requires e.page < |now| && |stamps| <= |now| && now[e.page] == clock
    requires forall p :: 0 <= p < |stamps| && p != e.page ==> now[p] == stamps[p]
    requires forall p :: 0 <= p < |now| ==> now[p] <= clock
    requires forall i :: 0 <= i < |m| ==> m[i].page != e.page
    ensures Aged(InsertEntry(m, e), now, clock + 1)
  {
    var at := InsertedBehind(m, e);
    var r := InsertEntry(m, e);
    PlaceShape(m, e, at);
    hide InsertEntry, PutAtPlace, Sorted;
    forall k, l | 0 <= k < l < |r| && r[k].free == r[l].free
      ensures Older(r, now, k, l)
    {
      if k != at && l != at {
        assert Older(m, stamps, Source(at, k), Source(at, l));
      }
    }
  }

  /** Where an entry behind or before the new one at `at` has been. */
  function Source(at: nat, k: nat): nat {
    if k <= at then k else k - 1
  }

  lemma PlaceShape(m: Multimap, e: Entry, at: nat)
    requires Sorted(m) && at <= |m| && PutAtPlace(m, e, InsertEntry(m, e), at)
    ensures var r := InsertEntry(m, e);
            && |r| == |m| + 1 && r[at] == e
            && (forall k :: 0 <= k < |r| && k != at ==> Source(at, k) < |m| && r[k] == m[Source(at, k)])
            && (forall l :: at < l < |r| ==> e.free < r[l].free)
  {
    hide InsertEntry;
  }

  lemma OneEntry(m: Multimap, ps: seq<PageState>, p: nat)
    requires Sorted(m) && multiset(m) == Index(ps) && p < |ps|
    ensures var r := Without(m, EntryFor(ps[p], p)); forall i :: 0 <= i < |r| ==> r[i].page != p
  {
    hide Without, Sorted, EntryFor;
    var r := Without(m, EntryFor(ps[p], p));
    forall i | 0 <= i < |r|
      ensures r[i].page != p
    {
      assert r[i] in multiset(r);
      IndexOnce(ps, r[i]);
    }
  }

  /** A page whose entry is renewed is the youngest. */
  lemma AgedReentered(m: Multimap, ps: seq<PageState>, qs: seq<PageState>, p: nat, stamps: seq<nat>, clock: nat)
    requires Sorted(m) && multiset(m) == Index(ps) && p < |ps| && p < |qs| && p < |stamps| && Aged(m, stamps, clock)
    ensures Aged(Reentered(m, ps, qs, p), stamps[p := clock], clock + 1)
  {
    OneEntry(m, ps, p);
    AgedWithout(m, EntryFor(ps[p], p), stamps, clock);
    assert forall q :: 0 <= q < |stamps| ==> stamps[q] < clock;
    hide Aged, Without, InsertEntry, Sorted, EntryFor;
    AgedInserted(Without(m, EntryFor(ps[p], p)), EntryFor(qs[p], p), stamps, stamps[p := clock], clock);
  }

  /** New pages are younger than all there were, the first of them the oldest. */
  function Stamped(stamps: seq<nat>, clock: nat, k: nat): (r: seq<nat>)
    ensures |r| == |stamps| + k
    ensures forall p :: 0 <= p < |r| ==> r[p] == if p < |stamps| then stamps[p] else clock + (p - |stamps|)
  {
    stamps + seq(k, i requires 0 <= i < k => clock + i)
  }

  lemma {:induction false} AgedNew(m: Multimap, stamps: seq<nat>, clock: nat, k: nat)
    requires Sorted(m) && Aged(m, stamps, clock)
    ensures Aged(WithNew(m, |stamps|, k), Stamped(stamps, clock, k), clock + k)
    decreases k
  {
    hide WithNew, Aged, Stamped, InsertEntry, Sorted;
    WithNewUnfold(m, |stamps|, k);
    StampedNext(stamps, clock, k);
    if k > 0 {
      AgedNew(m, stamps, clock, k - 1);
      AgedAppended(WithNew(m, |stamps|, k - 1), Entry(PAGESIZE - PAGE_HEADER, |stamps| + k - 1),
                   Stamped(stamps, clock, k - 1), clock + k - 1);
    }
  }

  lemma StampedNext(stamps: seq<nat>, clock: nat, k: nat)
    ensures Stamped(stamps, clock, k) == if k == 0 then stamps else Stamped(stamps, clock, k - 1) + [clock + k - 1]
  {
  }

  lemma AgedAppended(m: Multimap, e: Entry, stamps: seq<nat>, clock: nat)
    requires Sorted(m) && Aged(m, stamps, clock) && e.page == |stamps|
    ensures Aged(InsertEntry(m, e), stamps + [clock], clock + 1)
  {
    hide InsertEntry, Sorted;
    AgedInserted(m, e, stamps, stamps + [clock], clock);
  }

  lemma AgedSegment(m: Multimap, stamps: seq<nat>, clock: nat)
    requires Sorted(m) && Aged(m, stamps, clock)
    ensures Aged(WithSegment(m, |stamps|), Stamped(stamps, clock, PAGES_PER_SEGMENT), clock + PAGES_PER_SEGMENT)
  {
    hide WithNew, Aged, Stamped;
    AgedNew(m, stamps, clock, PAGES_PER_SEGMENT);
  }

  // ---- The page an insert takes ----

  /**
   Of the pages with more than `required` free bytes the fullest, and of several such the one with
   the oldest stamp.
   */
  ghost predicate First(ps: seq<PageState>, stamps: seq<nat>, required: nat, p: nat) {
    && p < |ps| && |stamps| == |ps| && required < FreeSpace(ps[p].cells)
    && forall q: nat :: q < |ps| && q != p && required < FreeSpace(ps[q].cells) ==> Before(ps, stamps, p, q)
  }

  ghost predicate Before(ps: seq<PageState>, stamps: seq<nat>, p: nat, q: nat) {
    && p < |ps| && q < |ps| && |stamps| == |ps|
    && (FreeSpace(ps[p].cells) < FreeSpace(ps[q].cells)
        || (FreeSpace(ps[p].cells) == FreeSpace(ps[q].cells) && stamps[p] < stamps[q]))
  }

  /** There is one such page at most. */
  lemma FirstIsOne(ps: seq<PageState>, stamps: seq<nat>, required: nat, p: nat, q: nat)
    requires First(ps, stamps, required, p) && First(ps, stamps, required, q)
    ensures p == q
  {
    hide FreeSpace;
    assert p == q || Before(ps, stamps, p, q);
    assert p == q || Before(ps, stamps, q, p);
  }

  ghost predicate EntriesRight(m: Multimap, ps: seq<PageState>) {
    && Sorted(m)
    && (forall i :: 0 <= i < |m| ==> m[i].page < |ps| && m[i].free == FreeSpace(ps[m[i].page].cells))
    && (forall p: nat :: p < |ps| ==> Entered(m, ps, p))
  }

  ghost predicate Entered(m: Multimap, ps: seq<PageState>, p: nat)
    requires p < |ps|
  {
    exists i :: 0 <= i < |m| && m[i].page == p && m[i].free == FreeSpace(ps[p].cells)
  }

  /** No page is accounted for more than it has. */
  ghost predicate Solvent(ps: seq<PageState>) {
    forall q: nat :: q < |ps| ==> FreeSpace(ps[q].cells) >= 0
  }

  lemma IndexEntries(m: Multimap, ps: seq<PageState>)
    requires Sorted(m) && multiset(m) == Index(ps) && Solvent(ps)
    ensures EntriesRight(m, ps)
  {
    hide FreeSpace;
    assert forall q: nat :: q < |ps| ==> EntryFor(ps[q], q) == Entry(FreeSpace(ps[q].cells), q);
    hide EntryFor;
    forall i | 0 <= i < |m|
      ensures m[i].page < |ps| && m[i] == EntryFor(ps[m[i].page], m[i].page)
    {
      assert m[i] in multiset(m);
      IndexOnce(ps, m[i]);
    }
    forall p: nat | p < |ps|
      ensures Entered(m, ps, p)
    {
      IndexOnce(ps, EntryFor(ps[p], p));
      assert EntryFor(ps[p], p) in multiset(m);
    }
  }

  lemma GoodSolvent(bs: seq<seq<byte>>, ps: seq<PageState>, m: Multimap)
    requires Good(bs, ps, m)
    ensures Solvent(ps)
  {
    hide FreeSpace;
    forall q: nat | q < |ps|
      ensures FreeSpace(ps[q].cells) >= 0
    {
      assert PageGood(bs[q], ps[q]);
      PageWords(bs[q], ps[q]);
    }
  }

  lemma {:induction false} NewIndex(m: Multimap, ps: seq<PageState>, k: nat)
    requires Sorted(m) && multiset(m) == Index(ps)
    ensures multiset(WithNew(m, |ps|, k)) == Index(ps + NewPages(k))
    decreases k
  {
    hide WithNew, InsertEntry, Index, Sorted;
    WithNewUnfold(m, |ps|, k);
    if k > 0 {
      NewIndex(m, ps, k - 1);
      assert ps + NewPages(k - 1) + [FRESH_PAGE] == ps + NewPages(k);
      IndexAppend(ps + NewPages(k - 1), FRESH_PAGE);
    } else {
      assert ps + NewPages(0) == ps;
    }
  }

  /** The index an insert searches is right for the pages it offers. */
  lemma SearchedRight(bs: seq<seq<byte>>, ps: seq<PageState>, m: Multimap, required: nat, qs: seq<PageState>)
    requires Good(bs, ps, m)
    requires qs == if NoneAbove(m, required) then ps + NewPages(PAGES_PER_SEGMENT) else ps
    ensures var k := Searched(m, required, |ps|); EntriesRight(k, qs) && multiset(k) == Index(qs)
  {
    GoodIndex(bs, ps, m);
    GoodSolvent(bs, ps, m);
    hide Good, NoneAbove, EntriesRight, Index, WithNew, Sorted;
    if NoneAbove(m, required) {
      NewIndex(m, ps, PAGES_PER_SEGMENT);
      assert Solvent(qs) by {
        forall q: nat | q < |qs|
          ensures FreeSpace(qs[q].cells) >= 0
        {
          if q < |ps| {
            assert qs[q] == ps[q];
          } else {
            assert qs[q] == FRESH_PAGE;
          }
        }
      }
    }
    hide Searched, NewPages;
    IndexEntries(Searched(m, required, |ps|), qs);
  }

  /** `_findPage` takes that page. */
  lemma ChosenFirst(m: Multimap, ps: seq<PageState>, stamps: seq<nat>, clock: nat, required: nat, p: nat)
    requires EntriesRight(m, ps) && Aged(m, stamps, clock) && |stamps| == |ps| && Chosen(m, required, p)
    ensures First(ps, stamps, required, p)
  {
    hide FreeSpace;
    var i :| 0 <= i < |m| && m[i].page == p && required < m[i].free && forall j :: 0 <= j < i ==> m[j].free <= required;
    forall q: nat | q < |ps| && q != p && required < FreeSpace(ps[q].cells)
      ensures Before(ps, stamps, p, q)
    {
      assert Entered(m, ps, q);
      var j :| 0 <= j < |m| && m[j].page == q && m[j].free == FreeSpace(ps[q].cells);
      assert i < j;
      if m[i].free == m[j].free {
        assert Older(m, stamps, i, j);
      }
    }
  }

  // ---- Where the stamps come from ----

  /** For the index of any good file there are stamps: the positions of the entries. */
  ghost function Positions(m: Multimap, n: nat): (stamps: seq<nat>)
    ensures |stamps| == n
  {
    seq(n, p requires 0 <= p < n => PositionOf(m, p))
  }

  function PositionOf(m: Multimap, p: nat): (i: nat)
    ensures i <= |m| && (forall j :: 0 <= j < i ==> m[j].page != p) && (i < |m| ==> m[i].page == p)
  {
    if m == [] || m[0].page == p then 0 else 1 + PositionOf(m[1..], p)
  }

  lemma PositionsAged(m: Multimap, ps: seq<PageState>)
    requires multiset(m) == Index(ps)
    ensures Aged(m, Positions(m, |ps|), |m| + 1)
  {
    var stamps := Positions(m, |ps|);
    forall i | 0 <= i < |m|
      ensures m[i].page < |ps| && stamps[m[i].page] == i
    {
      EnteredAt(m, ps, i);
    }
    PositionsBound(m, |ps|);
    AgedByPosition(m, stamps);
  }

  lemma AgedByPosition(m: Multimap, stamps: seq<nat>)
    requires forall i :: 0 <= i < |m| ==> m[i].page < |stamps| && stamps[m[i].page] == i
    requires forall p :: 0 <= p < |stamps| ==> stamps[p] < |m| + 1
    ensures Aged(m, stamps, |m| + 1)
  {
  }

  lemma PositionsBound(m: Multimap, n: nat)
    ensures forall p :: 0 <= p < n ==> Positions(m, n)[p] < |m| + 1
  {
  }

  lemma EnteredAt(m: Multimap, ps: seq<PageState>, i: nat)
    requires multiset(m) == Index(ps) && i < |m|
    ensures m[i].page < |ps| && PositionOf(m, m[i].page) == i
  {
    hide EntryFor;
    assert m[i] in multiset(m);
    IndexOnce(ps, m[i]);
    var k := PositionOf(m, m[i].page);
    if k < i {
      EnteredOnce(m, ps, k, i);
    }
  }

  lemma EnteredOnce(m: Multimap, ps: seq<PageState>, k: nat, i: nat)
    requires multiset(m) == Index(ps) && k < i < |m|
    ensures m[k].page != m[i].page
  {
    hide EntryFor;
    assert m[i] in multiset(m) && m[k] in multiset(m);
    IndexOnce(ps, m[i]);
    IndexOnce(ps, m[k]);
    CountedTwice(m, k, i);
  }

  lemma CountedTwice(m: Multimap, k: nat, i: nat)
    requires k < i < |m|
    ensures m[k] == m[i] ==> multiset(m)[m[i]] >= 2
  {
    assert m == m[..i] + m[i..];
    assert m[k] in m[..i] && m[i] in m[i..];
    assert multiset(m)[m[i]] == multiset(m[..i])[m[i]] + multiset(m[i..])[m[i]];
  }
}
