/** The ordered multimap from free bytes to page id, and the index of pages it must agree with. */
module FreeMap {
  import opened DmsPage

  datatype Entry = Entry(free: nat, page: nat)

  type Multimap = seq<Entry>

  predicate Sorted(m: Multimap) {
    forall i, j :: 0 <= i < j < |m| ==> m[i].free <= m[j].free
  }

  /** `upper_bound`: the first position whose key exceeds `key`. */
  function UpperBound(m: Multimap, key: int): (i: nat)
    ensures i <= |m|
    ensures forall j :: 0 <= j < i ==> m[j].free <= key
    ensures i < |m| ==> key < m[i].free
  {
    if m == [] || key < m[0].free then 0 else 1 + UpperBound(m[1..], key)
  }

  lemma {:induction false} UpperBoundMonotone(m: Multimap, a: int, b: int)
    requires a <= b
    ensures UpperBound(m, a) <= UpperBound(m, b)
  {
    if m != [] && m[0].free <= a {
      UpperBoundMonotone(m[1..], a, b);
    }
  }

  /** `insert`: behind every entry with the same key. */
  function InsertEntry(m: Multimap, e: Entry): (r: Multimap)
    requires Sorted(m)
    ensures Sorted(r) && multiset(r) == multiset(m) + multiset{e}
  {
    var i := UpperBound(m, e.free);
    InsertedAt(m, i, e);
    m[..i] + [e] + m[i..]
  }

  lemma InsertedBehind(m: Multimap, e: Entry) returns (i: nat)
    requires Sorted(m)
    ensures i <= |m| && PutAtPlace(m, e, InsertEntry(m, e), i)
  {
    i := UpperBound(m, e.free);
  }

  lemma InsertedLast(m: Multimap, e: Entry)
    requires Sorted(m) && forall j :: 0 <= j < |m| ==> m[j].free <= e.free
    ensures InsertEntry(m, e) == m + [e]
  {
    var i := UpperBound(m, e.free);
    assert i == |m| && m[..i] == m && m[i..] == [];
  }

  /** `r` is `m` with `e` in it behind all keys up to its own and before all greater ones. */
  predicate PutAtPlace(m: Multimap, e: Entry, r: Multimap, i: nat)
    requires i <= |m|
  {
    && r == m[..i] + [e] + m[i..]
    && (forall j :: 0 <= j < i ==> m[j].free <= e.free) && (forall j :: i <= j < |m| ==> e.free < m[j].free)
  }

  lemma InsertedAt(m: Multimap, i: nat, e: Entry)
    requires i <= |m|
    ensures multiset(m[..i] + [e] + m[i..]) == multiset(m) + multiset{e}
  {
    assert m == m[..i] + m[i..];
  }

  function Erase(m: Multimap, i: nat): (r: Multimap)
    requires Sorted(m) && i < |m|
    ensures Sorted(r) && multiset(r) == multiset(m) - multiset{m[i]}
  {
    var r := m[..i] + m[i + 1..];
    InsertedAt(r, i, m[i]);
    assert m == r[..i] + [m[i]] + r[i..];
    r
  }

  /** The page `_findPage` chooses: that of the first entry whose key is above `required`. */
  predicate Chosen(m: Multimap, required: int, page: nat) {
    exists i :: 0 <= i < |m| && m[i].page == page && required < m[i].free &&
      forall j :: 0 <= j < i ==> m[j].free <= required
  }

  predicate NoneAbove(m: Multimap, required: int) {
    forall j :: 0 <= j < |m| ==> m[j].free <= required
  }

  datatype PageState = PageState(cells: Layout, freeOffset: nat)

  function EntryFor(s: PageState, p: nat): (e: Entry)
    ensures e.page == p
  {
    var free := FreeSpace(s.cells);
    Entry(if free < 0 then 0 else free, p)
  }

  /** One entry per page, under the page's free space. */
  ghost function Index(pages: seq<PageState>): multiset<Entry> {
    if pages == [] then multiset{}
    else Index(pages[..|pages| - 1]) + multiset{EntryFor(pages[|pages| - 1], |pages| - 1)}
  }

  /** The index holds exactly one entry for every page, and no other. */
  lemma {:induction false} IndexOnce(pages: seq<PageState>, e: Entry)
    ensures Index(pages)[e] == if e.page < |pages| && e == EntryFor(pages[e.page], e.page) then 1 else 0
    ensures |Index(pages)| == |pages|
  {
    if pages != [] {
      IndexOnce(pages[..|pages| - 1], e);
    }
  }

  lemma {:induction false} IndexUpdate(pages: seq<PageState>, p: nat, s: PageState)
    requires p < |pages|
    ensures Index(pages[p := s]) == Index(pages) - multiset{EntryFor(pages[p], p)} + multiset{EntryFor(s, p)}
  {
    hide EntryFor;
    var n, q, m := |pages| - 1, pages[p := s], Index(pages[..|pages| - 1]);
    assert Index(pages) == m + multiset{EntryFor(pages[n], n)};
    assert Index(q) == Index(q[..n]) + multiset{EntryFor(q[n], n)};
    if p == n {
      assert q[..n] == pages[..n];
      ReplaceLast(m, EntryFor(pages[p], p), EntryFor(s, p));
    } else {
      IndexUpdate(pages[..n], p, s);
      assert q[..n] == pages[..n][p := s];
      IndexOnce(pages[..n], EntryFor(pages[p], p));
      ReplaceBeside(m, EntryFor(pages[p], p), EntryFor(s, p), EntryFor(pages[n], n));
    }
  }

  lemma ReplaceLast(m: multiset<Entry>, was: Entry, now: Entry)
    ensures m + multiset{now} == m + multiset{was} - multiset{was} + multiset{now}
  {
  }

  lemma ReplaceBeside(m: multiset<Entry>, was: Entry, now: Entry, last: Entry)
    requires was in m
    ensures m - multiset{was} + multiset{now} + multiset{last} == m + multiset{last} - multiset{was} + multiset{now}
  {
  }

  lemma IndexAppend(pages: seq<PageState>, s: PageState)
    ensures Index(pages + [s]) == Index(pages) + multiset{EntryFor(s, |pages|)}
  {
    assert (pages + [s])[..|pages|] == pages;
  }

  /** A page is found exactly when some page has more free bytes than asked for. */
  lemma FindAgrees(m: Multimap, pages: seq<PageState>, required: nat)
    requires Sorted(m) && multiset(m) == Index(pages)
    ensures NoneAbove(m, required) <==>
            forall p :: 0 <= p < |pages| ==> EntryFor(pages[p], p).free <= required
    ensures forall p: nat :: Chosen(m, required, p) ==> p < |pages| && required < EntryFor(pages[p], p).free
  {
    forall i | 0 <= i < |m|
      ensures m[i].page < |pages| && m[i] == EntryFor(pages[m[i].page], m[i].page)
    {
      assert m[i] in multiset(m);
      IndexOnce(pages, m[i]);
    }
    forall p | 0 <= p < |pages|
      ensures EntryFor(pages[p], p) in m
    {
      IndexOnce(pages, EntryFor(pages[p], p));
      assert EntryFor(pages[p], p) in multiset(m);
    }
  }
}
