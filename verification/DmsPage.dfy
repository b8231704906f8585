/**
 The slotted page of the heap file: a header, slots growing up, records growing down.
 `Layout` says where records may lie; `Shows` says which bytes stand for a layout. The two are
 kept apart so that placement is argued about without bytes, and overwrites without placement.
 */
module DmsPage {
  import opened Bytes

  const PAGESIZE: nat := 4194304
  const PAGE_HEADER: nat := 28
  const RECORD_HEADER: nat := 8
  const SLOT_SIZE: nat := 4
  const SLOT_EMPTY: nat := 0xFFFF_FFFF
  const FLAG_NORMAL: nat := 0
  const FLAG_DROPPED: nat := 1
  const EYECATCHER: seq<byte> := [0x50, 0x41, 0x47, 0x48]

  // Offsets of the page header's fields.
  const AT_SIZE: nat := 4
  const AT_FLAG: nat := 8
  const AT_NUM_SLOTS: nat := 12
  const AT_SLOT_OFFSET: nat := 16
  const AT_FREE_SPACE: nat := 20
  const AT_FREE_OFFSET: nat := 24

  /** A BSON document's first word is its own length. */
  predicate IsDocument(d: seq<byte>) {
    5 <= |d| < WORD && WordAt(d, 0) == |d|
  }

  /** What a slot stands for: a removed record, or a document stored at a page offset. */
  datatype Cell = Gone | At(off: nat, doc: seq<byte>) {
    function Size(): nat {
      if Gone? then 0 else RECORD_HEADER + |doc|
    }

    function SlotWord(): nat {
      if Gone? then SLOT_EMPTY else off
    }
  }

  type Layout = seq<Cell>

  // ---- Placement, without bytes ----

  function SlotsEnd(n: nat): nat {
    PAGE_HEADER + SLOT_SIZE * n
  }

  /** Bytes taken by the live records of the first `n` slots. */
  function UsedTo(c: Layout, n: nat): nat
    requires n <= |c|
  {
    if n == 0 then 0 else UsedTo(c, n - 1) + c[n - 1].Size()
  }

  function Used(c: Layout): nat {
    UsedTo(c, |c|)
  }

  predicate LiveTo(c: Layout, n: nat)
    requires n <= |c|
  {
    forall i :: 0 <= i < n ==> c[i].At?
  }

  /** Live offsets strictly decrease with the slot index, and records do not overlap. */
  predicate Ordered(c: Layout) {
    forall i, j :: 0 <= i < j < |c| && c[i].At? && c[j].At? ==> c[j].off + c[j].Size() <= c[i].off
  }

  predicate Documents(c: Layout) {
    forall k :: 0 <= k < |c| && c[k].At? ==> IsDocument(c[k].doc)
  }

  predicate Bounded(c: Layout, freeOffset: nat) {
    && SlotsEnd(|c|) <= freeOffset <= PAGESIZE
    && forall k :: 0 <= k < |c| && c[k].At? ==> freeOffset <= c[k].off && c[k].off + c[k].Size() <= PAGESIZE
  }

  /** Slots before the first removed one are packed against the page end. */
  predicate Packed(c: Layout, freeOffset: nat) {
    && (forall k :: 0 <= k < |c| && LiveTo(c, k + 1) ==> c[k].off == PAGESIZE - UsedTo(c, k + 1))
    && (LiveTo(c, |c|) ==> freeOffset == PAGESIZE - Used(c))
  }

  predicate Placed(c: Layout, freeOffset: nat) {
    Documents(c) && Bounded(c, freeOffset) && Ordered(c) && Packed(c, freeOffset)
  }

  lemma {:induction false} UsedMonotone(c: Layout, i: nat, j: nat)
    requires i <= j <= |c|
    ensures UsedTo(c, i) <= UsedTo(c, j)
    decreases j
  {
    if i < j {
      UsedMonotone(c, i, j - 1);
    }
  }

  lemma {:induction false} UsedSame(c: Layout, u: Layout, n: nat)
    requires n <= |c| && n <= |u|
    requires forall k :: 0 <= k < n ==> c[k].Size() == u[k].Size()
    ensures UsedTo(c, n) == UsedTo(u, n)
  {
    if n > 0 {
      UsedSame(c, u, n - 1);
    }
  }

  /** Dropping a record gives back exactly its bytes. */
  lemma {:induction false} UsedDrop(c: Layout, i: nat, n: nat)
    requires i < n <= |c|
    ensures UsedTo(c[i := Gone], n) + c[i].Size() == UsedTo(c, n)
    decreases n
  {
    if i == n - 1 {
      UsedSame(c, c[i := Gone], i);
    } else {
      UsedDrop(c, i, n - 1);
    }
  }

  /** The records of the first `n` slots fit above any bound that lies below all of them. */
  lemma {:induction false} UsedAbove(c: Layout, n: nat, low: nat)
    requires n <= |c| && low <= PAGESIZE && Ordered(c)
    requires forall k :: 0 <= k < n && c[k].At? ==> low <= c[k].off && c[k].off + c[k].Size() <= PAGESIZE
    ensures UsedTo(c, n) <= PAGESIZE - low
    decreases n
  {
    if n > 0 {
      UsedAbove(c, n - 1, if c[n - 1].Gone? then low else c[n - 1].off + c[n - 1].Size());
    }
  }

  lemma UsedFits(c: Layout, freeOffset: nat)
    requires Bounded(c, freeOffset) && Ordered(c)
    ensures Used(c) <= PAGESIZE - freeOffset
  {
    UsedAbove(c, |c|, freeOffset);
  }

  lemma UsedAppend(c: Layout, cell: Cell)
    ensures Used(c + [cell]) == Used(c) + cell.Size()
  {
    UsedSame(c, c + [cell], |c|);
  }

  lemma AppendPacked(c: Layout, freeOffset: nat, cell: Cell)
    requires Packed(c, freeOffset) && cell.At? && cell.off + cell.Size() == freeOffset
    ensures Packed(c + [cell], cell.off)
  {
    var u := c + [cell];
    UsedAppend(c, cell);
    assert LiveTo(u, |u|) ==> LiveTo(c, |c|) by {
      assert forall k :: 0 <= k < |c| ==> u[k] == c[k];
    }
    forall k | 0 <= k < |u| && LiveTo(u, k + 1)
      ensures u[k].off == PAGESIZE - UsedTo(u, k + 1)
    {
      if k < |c| {
        UsedSame(c, u, k + 1);
        assert LiveTo(c, k + 1) by {
          assert forall j :: 0 <= j < k + 1 ==> c[j] == u[j];
        }
      }
    }
  }

  lemma AppendOrdered(c: Layout, cell: Cell)
    requires Ordered(c) && cell.At?
    requires forall k :: 0 <= k < |c| && c[k].At? ==> cell.off + cell.Size() <= c[k].off
    ensures Ordered(c + [cell])
  {
    var u := c + [cell];
    forall i, j | 0 <= i < j < |u| && u[i].At? && u[j].At?
      ensures u[j].off + u[j].Size() <= u[i].off
    {
      assert u[i] == c[i];
      assert j < |c| ==> u[j] == c[j];
    }
  }

  lemma AppendBounded(c: Layout, freeOffset: nat, cell: Cell)
    requires Documents(c) && Bounded(c, freeOffset)
    requires cell.At? && IsDocument(cell.doc) && cell.off + cell.Size() == freeOffset && SlotsEnd(|c| + 1) <= cell.off
    ensures Documents(c + [cell]) && Bounded(c + [cell], cell.off)
  {
    hide IsDocument;
    var u := c + [cell];
    assert forall k :: 0 <= k < |u| ==> u[k] == if k < |c| then c[k] else cell;
  }

  /** A record placed just below the free offset keeps the page well placed. */
  lemma AppendPlaced(c: Layout, freeOffset: nat, d: seq<byte>)
    requires Placed(c, freeOffset) && IsDocument(d)
    requires SlotsEnd(|c|) + SLOT_SIZE + RECORD_HEADER + |d| <= freeOffset
    ensures var off := freeOffset - RECORD_HEADER - |d|;
            && Placed(c + [At(off, d)], off)
            && Used(c + [At(off, d)]) == Used(c) + RECORD_HEADER + |d|
  {
    hide IsDocument;
    var cell := At(freeOffset - RECORD_HEADER - |d|, d);
    AppendPacked(c, freeOffset, cell);
    AppendOrdered(c, cell);
    AppendBounded(c, freeOffset, cell);
    UsedAppend(c, cell);
  }

  lemma DropPacked(c: Layout, freeOffset: nat, i: nat)
    requires Packed(c, freeOffset) && i < |c|
    ensures Packed(c[i := Gone], freeOffset)
  {
    var u := c[i := Gone];
    assert u[i].Gone?;
    forall k | 0 <= k < |u| && LiveTo(u, k + 1)
      ensures u[k].off == PAGESIZE - UsedTo(u, k + 1)
    {
      assert k < i;
      UsedSame(c, u, k + 1);
      assert LiveTo(c, k + 1);
    }
  }

  /** A removed record leaves a hole that no packing claim covers any more. */
  lemma DropPlaced(c: Layout, freeOffset: nat, i: nat)
    requires Placed(c, freeOffset) && i < |c|
    ensures Placed(c[i := Gone], freeOffset)
    ensures Used(c[i := Gone]) == Used(c) - c[i].Size()
  {
    hide IsDocument, LiveTo;
    DropPacked(c, freeOffset, i);
    UsedDrop(c, i, |c|);
  }

  // ---- The bytes that stand for a layout ----

  function RecordBytes(d: seq<byte>): (b: seq<byte>)
    requires |d| + RECORD_HEADER < WORD
    ensures |b| == |d| + RECORD_HEADER
  {
    WordBytes(|d| + RECORD_HEADER) + WordBytes(FLAG_NORMAL) + d
  }

  function SlotAt(p: seq<byte>, k: nat): (v: nat)
    requires |p| == PAGESIZE && SlotsEnd(k + 1) <= PAGESIZE
    ensures v < WORD
  {
    WordAt(p, SlotsEnd(k))
  }

  /** Slot `k` leads to the header and bytes of the document it stands for. */
  predicate CellShown(p: seq<byte>, cell: Cell, k: nat)
    requires |p| == PAGESIZE && SlotsEnd(k + 1) <= PAGESIZE
  {
    && SlotAt(p, k) == cell.SlotWord()
    && (cell.At? ==>
          && cell.off + cell.Size() <= PAGESIZE
          && p[cell.off..cell.off + cell.Size()] == RecordBytes(cell.doc))
  }

  predicate HeaderShown(p: seq<byte>, slots: nat, freeOffset: nat, freeSpace: nat) {
    && |p| == PAGESIZE
    && p[0..4] == EYECATCHER
    && WordAt(p, AT_NUM_SLOTS) == slots
    && WordAt(p, AT_SLOT_OFFSET) == SlotsEnd(slots)
    && WordAt(p, AT_FREE_OFFSET) == freeOffset
    && WordAt(p, AT_FREE_SPACE) == freeSpace
  }

  predicate Shows(p: seq<byte>, c: Layout, freeOffset: nat, freeSpace: nat) {
    && SlotsEnd(|c|) <= PAGESIZE
    && HeaderShown(p, |c|, freeOffset, freeSpace)
    && forall k :: 0 <= k < |c| ==> CellShown(p, c[k], k)
  }

  /** Free space as the header accounts for it: everything but header, slots and live records. */
  function FreeSpace(c: Layout): int {
    PAGESIZE - SlotsEnd(|c|) - Used(c)
  }

  /** The page invariant: well-placed records, shown by the bytes, with exact accounting. */
  predicate Holds(p: seq<byte>, c: Layout) {
    && |p| == PAGESIZE
    && Placed(c, WordAt(p, AT_FREE_OFFSET))
    && FreeSpace(c) >= 0
    && Shows(p, c, WordAt(p, AT_FREE_OFFSET), FreeSpace(c))
  }

  /** An overwrite clear of a cell's slot and record leaves the cell shown. */
  lemma CellKept(p: seq<byte>, at: nat, b: seq<byte>, cell: Cell, k: nat)
    requires |p| == PAGESIZE && at + |b| <= PAGESIZE && SlotsEnd(k + 1) <= PAGESIZE
    requires CellShown(p, cell, k)
    requires at + |b| <= SlotsEnd(k) || SlotsEnd(k + 1) <= at
    requires cell.At? ==> at + |b| <= cell.off || cell.off + cell.Size() <= at
    ensures CellShown(Splice(p, at, b), cell, k)
  {
    SpliceWordOutside(p, at, b, SlotsEnd(k));
    if cell.At? {
      SpliceOutside(p, at, b, cell.off, cell.off + cell.Size());
    }
  }

  /** An overwrite behind the header leaves the header alone. */
  lemma HeaderKept(p: seq<byte>, at: nat, b: seq<byte>, slots: nat, freeOffset: nat, freeSpace: nat)
    requires HeaderShown(p, slots, freeOffset, freeSpace)
    requires PAGE_HEADER <= at && at + |b| <= PAGESIZE
    ensures HeaderShown(Splice(p, at, b), slots, freeOffset, freeSpace)
  {
    SpliceOutside(p, at, b, 0, 4);
    SpliceWordOutside(p, at, b, AT_NUM_SLOTS);
    SpliceWordOutside(p, at, b, AT_SLOT_OFFSET);
    SpliceWordOutside(p, at, b, AT_FREE_OFFSET);
    SpliceWordOutside(p, at, b, AT_FREE_SPACE);
  }

  /** The four counters of the header, written in place. */
  function Counted(p: seq<byte>, slots: nat, freeOffset: nat): (q: seq<byte>)
    requires |p| == PAGESIZE && SlotsEnd(slots) < WORD && freeOffset < WORD
    ensures |q| == PAGESIZE
  {
    Splice(Splice(Splice(p, AT_NUM_SLOTS, WordBytes(slots)), AT_SLOT_OFFSET, WordBytes(SlotsEnd(slots))),
           AT_FREE_OFFSET, WordBytes(freeOffset))
  }

  lemma WordUpdate(p: seq<byte>, at: nat, v: nat, w: nat)
    requires |p| == PAGESIZE && v < WORD && at + 4 <= PAGESIZE && w + 4 <= PAGESIZE
    requires w == at || w + 4 <= at || at + 4 <= w
    ensures WordAt(Splice(p, at, WordBytes(v)), w) == if w == at then v else WordAt(p, w)
  {
    if w == at {
      SpliceWordInside(p, at, v);
    } else {
      SpliceWordOutside(p, at, WordBytes(v), w);
    }
  }

  lemma CountedHeader(p: seq<byte>, n: nat, f: nat, s: nat, slots: nat, freeOffset: nat)
    requires HeaderShown(p, n, f, s) && SlotsEnd(slots) < WORD && freeOffset < WORD
    ensures HeaderShown(Counted(p, slots, freeOffset), slots, freeOffset, s)
  {
    var p1 := Splice(p, AT_NUM_SLOTS, WordBytes(slots));
    var p2 := Splice(p1, AT_SLOT_OFFSET, WordBytes(SlotsEnd(slots)));
    SpliceOutside(p, AT_NUM_SLOTS, WordBytes(slots), 0, 4);
    SpliceOutside(p1, AT_SLOT_OFFSET, WordBytes(SlotsEnd(slots)), 0, 4);
    SpliceOutside(p2, AT_FREE_OFFSET, WordBytes(freeOffset), 0, 4);
    WordUpdate(p, AT_NUM_SLOTS, slots, AT_NUM_SLOTS);
    WordUpdate(p, AT_NUM_SLOTS, slots, AT_FREE_SPACE);
    WordUpdate(p1, AT_SLOT_OFFSET, SlotsEnd(slots), AT_NUM_SLOTS);
    WordUpdate(p1, AT_SLOT_OFFSET, SlotsEnd(slots), AT_SLOT_OFFSET);
    WordUpdate(p1, AT_SLOT_OFFSET, SlotsEnd(slots), AT_FREE_SPACE);
    WordUpdate(p2, AT_FREE_OFFSET, freeOffset, AT_NUM_SLOTS);
    WordUpdate(p2, AT_FREE_OFFSET, freeOffset, AT_SLOT_OFFSET);
    WordUpdate(p2, AT_FREE_OFFSET, freeOffset, AT_FREE_SPACE);
    WordUpdate(p2, AT_FREE_OFFSET, freeOffset, AT_FREE_OFFSET);
  }

  lemma CountedCell(p: seq<byte>, slots: nat, freeOffset: nat, cell: Cell, k: nat)
    requires |p| == PAGESIZE && SlotsEnd(slots) < WORD && freeOffset < WORD
    requires SlotsEnd(k + 1) <= PAGESIZE && CellShown(p, cell, k) && (cell.At? ==> PAGE_HEADER <= cell.off)
    ensures CellShown(Counted(p, slots, freeOffset), cell, k)
  {
    var p1 := Splice(p, AT_NUM_SLOTS, WordBytes(slots));
    var p2 := Splice(p1, AT_SLOT_OFFSET, WordBytes(SlotsEnd(slots)));
    CellKept(p, AT_NUM_SLOTS, WordBytes(slots), cell, k);
    CellKept(p1, AT_SLOT_OFFSET, WordBytes(SlotsEnd(slots)), cell, k);
    CellKept(p2, AT_FREE_OFFSET, WordBytes(freeOffset), cell, k);
  }

  /** Writing the free-space counter alone. */
  lemma FreeSpaceWritten(p: seq<byte>, c: Layout, freeOffset: nat, was: nat, freeSpace: nat)
    requires Shows(p, c, freeOffset, was) && freeSpace < WORD
    requires forall k :: 0 <= k < |c| && c[k].At? ==> PAGE_HEADER <= c[k].off
    ensures Shows(Splice(p, AT_FREE_SPACE, WordBytes(freeSpace)), c, freeOffset, freeSpace)
  {
    SpliceOutside(p, AT_FREE_SPACE, WordBytes(freeSpace), 0, 4);
    WordUpdate(p, AT_FREE_SPACE, freeSpace, AT_NUM_SLOTS);
    WordUpdate(p, AT_FREE_SPACE, freeSpace, AT_SLOT_OFFSET);
    WordUpdate(p, AT_FREE_SPACE, freeSpace, AT_FREE_OFFSET);
    WordUpdate(p, AT_FREE_SPACE, freeSpace, AT_FREE_SPACE);
    forall k | 0 <= k < |c|
      ensures CellShown(Splice(p, AT_FREE_SPACE, WordBytes(freeSpace)), c[k], k)
    {
      CellKept(p, AT_FREE_SPACE, WordBytes(freeSpace), c[k], k);
    }
  }

  // ---- Insert ----

  /** The page once `insert` has written slot, record header and body. */
  function Written(p: seq<byte>, n: nat, off: nat, d: seq<byte>): (q: seq<byte>)
    requires |p| == PAGESIZE && SlotsEnd(n + 1) <= off && off + RECORD_HEADER + |d| <= PAGESIZE
    ensures |q| == PAGESIZE
  {
    Splice(Splice(p, SlotsEnd(n), WordBytes(off)), off, RecordBytes(d))
  }

  lemma WrittenNew(p: seq<byte>, n: nat, off: nat, d: seq<byte>)
    requires |p| == PAGESIZE && SlotsEnd(n + 1) <= off && off + RECORD_HEADER + |d| <= PAGESIZE
    ensures CellShown(Written(p, n, off, d), At(off, d), n)
  {
    var p1 := Splice(p, SlotsEnd(n), WordBytes(off));
    SpliceWordInside(p, SlotsEnd(n), off);
    SpliceWordOutside(p1, off, RecordBytes(d), SlotsEnd(n));
    SpliceInside(p1, off, RecordBytes(d));
  }

  lemma WrittenOld(p: seq<byte>, n: nat, off: nat, d: seq<byte>, cell: Cell, k: nat)
    requires |p| == PAGESIZE && SlotsEnd(n + 1) <= off && off + RECORD_HEADER + |d| <= PAGESIZE
    requires k < n && CellShown(p, cell, k) && (cell.At? ==> off + RECORD_HEADER + |d| <= cell.off)
    ensures CellShown(Written(p, n, off, d), cell, k)
  {
    CellKept(p, SlotsEnd(n), WordBytes(off), cell, k);
    CellKept(Splice(p, SlotsEnd(n), WordBytes(off)), off, RecordBytes(d), cell, k);
  }

  /** The bytes after an insert stand for the layout with one more record. */
  lemma WrittenShows(p: seq<byte>, c: Layout, f: nat, s: nat, d: seq<byte>)
    requires Bounded(c, f) && Shows(p, c, f, s) && SlotsEnd(|c|) + SLOT_SIZE + RECORD_HEADER + |d| <= f
    ensures var off := f - RECORD_HEADER - |d|;
            Shows(Counted(Written(p, |c|, off, d), |c| + 1, off), c + [At(off, d)], off, s)
  {
    hide WordOf, WordBytes, RecordBytes;
    var n, off := |c|, f - RECORD_HEADER - |d|;
    var p2 := Written(p, n, off, d);
    var q, u := Counted(p2, n + 1, off), c + [At(off, d)];
    HeaderKept(p, SlotsEnd(n), WordBytes(off), n, f, s);
    HeaderKept(Splice(p, SlotsEnd(n), WordBytes(off)), off, RecordBytes(d), n, f, s);
    CountedHeader(p2, n, f, s, n + 1, off);
    forall k | 0 <= k < n
      ensures CellShown(q, u[k], k)
    {
      WrittenOld(p, n, off, d, c[k], k);
      CountedCell(p2, n + 1, off, c[k], k);
    }
    WrittenNew(p, n, off, d);
    CountedCell(p2, n + 1, off, At(off, d), n);
  }

  // ---- Remove ----

  /** The page once `remove` has emptied the slot and flagged the record at `off`. */
  function Flagged(p: seq<byte>, k: nat, off: nat): (q: seq<byte>)
    requires |p| == PAGESIZE && SlotsEnd(k + 1) <= PAGESIZE && off + RECORD_HEADER <= PAGESIZE
    ensures |q| == PAGESIZE
  {
    Splice(Splice(p, SlotsEnd(k), WordBytes(SLOT_EMPTY)), off + 4, WordBytes(FLAG_DROPPED))
  }

  lemma FlaggedShows(p: seq<byte>, c: Layout, f: nat, s: nat, i: nat)
    requires Bounded(c, f) && Ordered(c) && Shows(p, c, f, s) && i < |c| && c[i].At?
    ensures Shows(Flagged(p, i, c[i].off), c[i := Gone], f, s)
  {
    hide WordOf, WordBytes, RecordBytes;
    var off := c[i].off;
    var p1, q, u := Splice(p, SlotsEnd(i), WordBytes(SLOT_EMPTY)), Flagged(p, i, off), c[i := Gone];
    HeaderKept(p, SlotsEnd(i), WordBytes(SLOT_EMPTY), |c|, f, s);
    HeaderKept(p1, off + 4, WordBytes(FLAG_DROPPED), |c|, f, s);
    forall k | 0 <= k < |u|
      ensures CellShown(q, u[k], k)
    {
      if k == i {
        SpliceWordInside(p, SlotsEnd(i), SLOT_EMPTY);
      } else {
        CellKept(p, SlotsEnd(i), WordBytes(SLOT_EMPTY), c[k], k);
      }
      CellKept(p1, off + 4, WordBytes(FLAG_DROPPED), u[k], k);
    }
  }

  // ---- Compaction ----

  /** The page once record `i` has been moved from `src` to `dst` and its slot rewritten. */
  function Moved(p: seq<byte>, i: nat, src: nat, dst: nat, size: nat): (q: seq<byte>)
    requires |p| == PAGESIZE && SlotsEnd(i + 1) <= PAGESIZE
    requires src + size <= PAGESIZE && dst + size <= PAGESIZE
    ensures |q| == PAGESIZE
  {
    Splice(Splice(p, dst, p[src..src + size]), SlotsEnd(i), WordBytes(dst))
  }

  lemma MovedSelf(p: seq<byte>, cell: Cell, i: nat, dst: nat)
    requires |p| == PAGESIZE && SlotsEnd(i + 1) <= dst && cell.At? && dst + cell.Size() <= PAGESIZE
    requires CellShown(p, cell, i)
    ensures CellShown(Moved(p, i, cell.off, dst, cell.Size()), At(dst, cell.doc), i)
  {
    var moved := p[cell.off..cell.off + cell.Size()];
    var p1 := Splice(p, dst, moved);
    SpliceInside(p, dst, moved);
    SpliceOutside(p1, SlotsEnd(i), WordBytes(dst), dst, dst + cell.Size());
    SpliceWordInside(p1, SlotsEnd(i), dst);
  }

  /** A record moved onto bytes no other live record needs, possibly overlapping itself. */
  lemma MovedShows(p: seq<byte>, c: Layout, f: nat, s: nat, i: nat, dst: nat)
    requires Shows(p, c, f, s) && i < |c| && c[i].At? && SlotsEnd(|c|) <= dst && dst + c[i].Size() <= PAGESIZE
    requires c[i].off + c[i].Size() <= PAGESIZE
    requires forall k :: 0 <= k < |c| && k != i && c[k].At? ==>
               && SlotsEnd(|c|) <= c[k].off
               && (dst + c[i].Size() <= c[k].off || c[k].off + c[k].Size() <= dst)
    ensures Shows(Moved(p, i, c[i].off, dst, c[i].Size()), c[i := At(dst, c[i].doc)], f, s)
  {
    hide WordOf, WordBytes, RecordBytes;
    var moved := p[c[i].off..c[i].off + c[i].Size()];
    var p1 := Splice(p, dst, moved);
    HeaderKept(p, dst, moved, |c|, f, s);
    HeaderKept(p1, SlotsEnd(i), WordBytes(dst), |c|, f, s);
    forall k | 0 <= k < |c| && k != i
      ensures CellShown(Moved(p, i, c[i].off, dst, c[i].Size()), c[k], k)
    {
      CellKept(p, dst, moved, c[k], k);
      CellKept(p1, SlotsEnd(i), WordBytes(dst), c[k], k);
    }
    MovedSelf(p, c[i], i, dst);
  }

  /** Where compaction puts slot `k`: live records end to end from the page end down. */
  function Target(c: Layout, k: nat): Cell
    requires k < |c|
  {
    if c[k].Gone? || UsedTo(c, k + 1) > PAGESIZE then Gone else At(PAGESIZE - UsedTo(c, k + 1), c[k].doc)
  }

  /** `u` is `c` with its first `i` slots compacted. */
  predicate CompactedTo(c: Layout, u: Layout, i: nat) {
    && i <= |c| == |u|
    && UsedTo(c, i) <= PAGESIZE
    && (forall k :: 0 <= k < i ==> u[k] == Target(c, k))
    && (forall k :: i <= k < |c| ==> u[k] == c[k])
  }

  /** Compaction changes offsets only. */
  lemma CompactedSame(c: Layout, u: Layout, i: nat)
    requires CompactedTo(c, u, i)
    ensures forall k :: 0 <= k < |c| ==>
              (u[k].At? <==> c[k].At?) && u[k].Size() == c[k].Size() && (c[k].At? ==> u[k].doc == c[k].doc)
  {
    forall k | 0 <= k < |c|
      ensures u[k].At? <==> c[k].At?
    {
      if k < i {
        UsedMonotone(c, k + 1, i);
      }
    }
  }

  lemma CompactedStep(c: Layout, u: Layout, i: nat)
    requires CompactedTo(c, u, i) && i < |c| && UsedTo(c, i + 1) <= PAGESIZE
    ensures CompactedTo(c, u[i := Target(c, i)], i + 1)
  {
    var v := u[i := Target(c, i)];
    assert forall k :: 0 <= k < |c| ==> v[k] == if k == i then Target(c, i) else u[k];
  }

  lemma DoneAbove(c: Layout, u: Layout, i: nat)
    requires CompactedTo(c, u, i)
    ensures forall k :: 0 <= k < i && u[k].At? ==> PAGESIZE - UsedTo(c, i) <= u[k].off
  {
    forall k | 0 <= k < i && u[k].At?
      ensures PAGESIZE - UsedTo(c, i) <= u[k].off
    {
      UsedMonotone(c, k + 1, i);
    }
  }

  /** The next record moves up or stays, and lands clear of all others. */
  lemma TargetClear(c: Layout, f: nat, u: Layout, i: nat)
    requires Placed(c, f) && CompactedTo(c, u, i) && i < |c| && c[i].At?
    ensures UsedTo(c, i + 1) <= PAGESIZE
    ensures c[i].off <= PAGESIZE - UsedTo(c, i + 1)
    ensures LiveTo(c, i) ==> c[i].off == PAGESIZE - UsedTo(c, i + 1)
    ensures forall k :: 0 <= k < i && u[k].At? ==> PAGESIZE - UsedTo(c, i) <= u[k].off
    ensures forall k :: i < k < |c| && u[k].At? ==> f <= u[k].off && u[k].off + u[k].Size() <= c[i].off
  {
    hide IsDocument;
    UsedAbove(c, i + 1, c[i].off);
    assert LiveTo(c, i) ==> LiveTo(c, i + 1);
    DoneAbove(c, u, i);
  }

  lemma CompactedOrdered(c: Layout, u: Layout)
    requires CompactedTo(c, u, |c|)
    ensures Ordered(u)
  {
    forall i, j | 0 <= i < j < |u| && u[i].At? && u[j].At?
      ensures u[j].off + u[j].Size() <= u[i].off
    {
      UsedMonotone(c, i + 1, j);
    }
  }

  lemma CompactedBounded(c: Layout, f: nat, u: Layout)
    requires Bounded(c, f) && Ordered(c) && CompactedTo(c, u, |c|)
    ensures Bounded(u, f) && Used(c) <= PAGESIZE - f && Bounded(u, PAGESIZE - Used(c))
  {
    UsedFits(c, f);
    forall k | 0 <= k < |u| && u[k].At?
      ensures PAGESIZE - Used(c) <= u[k].off && u[k].off + u[k].Size() <= PAGESIZE
    {
      UsedMonotone(c, k + 1, |c|);
    }
  }

  lemma CompactedPacked(c: Layout, f: nat, u: Layout)
    requires Packed(c, f) && CompactedTo(c, u, |c|)
    ensures Packed(u, f) && Packed(u, PAGESIZE - Used(c))
  {
    CompactedSame(c, u, |c|);
    UsedSame(c, u, |c|);
    assert LiveTo(u, |u|) ==> LiveTo(c, |c|);
    forall k | 0 <= k < |u| && LiveTo(u, k + 1)
      ensures u[k].off == PAGESIZE - UsedTo(u, k + 1)
    {
      assert u[k].At?;
      UsedSame(c, u, k + 1);
    }
  }

  lemma CompactedDocuments(c: Layout, u: Layout)
    requires Documents(c) && CompactedTo(c, u, |c|)
    ensures Documents(u) && Used(u) == Used(c) <= PAGESIZE
  {
    hide IsDocument;
    CompactedSame(c, u, |c|);
    UsedSame(c, u, |c|);
  }

  /** A compacted layout is well placed, for the old free offset and for the packed boundary. */
  lemma CompactedPlaced(c: Layout, f: nat, u: Layout)
    requires Placed(c, f) && CompactedTo(c, u, |c|)
    ensures Used(u) == Used(c) <= PAGESIZE
    ensures Placed(u, f) && Placed(u, PAGESIZE - Used(c))
  {
    hide Documents, Bounded, Ordered, Packed, UsedTo;
    CompactedBounded(c, f, u);
    CompactedOrdered(c, u);
    CompactedPacked(c, f, u);
    CompactedDocuments(c, u);
  }

  // ---- The page operations, in place on the bytes of a segment ----

  /** The page starting at `base` of a segment. */
  function PageOf(a: array<byte>, base: nat): (p: seq<byte>)
    requires base + PAGESIZE <= a.Length
    reads a
    ensures |p| == PAGESIZE
  {
    a[base..base + PAGESIZE]
  }

  function ReadWord(a: array<byte>, base: nat, at: nat): (v: nat)
    requires base + PAGESIZE <= a.Length && at + 4 <= PAGESIZE
    reads a
    ensures v == WordAt(PageOf(a, base), at)
  {
    SliceOfSlice(a[..], base, base + PAGESIZE, at, at + 4);
    WordOf(a[base + at..base + at + 4])
  }

  /** Nothing outside the page at `base` has changed. */
  twostate predicate KeptElsewhere(a: array<byte>, base: nat)
    reads a
  {
    forall k :: 0 <= k < a.Length && (k < base || base + PAGESIZE <= k) ==> a[k] == old(a[k])
  }

  /** `memcpy` of `b` to offset `at` of the page at `base`. */
  method WritePage(a: array<byte>, base: nat, at: nat, b: seq<byte>)
    requires base + PAGESIZE <= a.Length && at + |b| <= PAGESIZE
    modifies a
    ensures PageOf(a, base) == Splice(old(PageOf(a, base)), at, b)
    ensures KeptElsewhere(a, base)
  {
    var n := 0;
    while n < |b|
      invariant 0 <= n <= |b|
      invariant forall k :: 0 <= k < a.Length ==>
                  a[k] == if base + at <= k < base + at + n then b[k - base - at] else old(a[k])
    {
      a[base + at + n] := b[n];
      n := n + 1;
    }
  }

  /** The record header and slot word that a live cell's bytes hold. */
  lemma CellWords(p: seq<byte>, cell: Cell, k: nat)
    requires |p| == PAGESIZE && SlotsEnd(k + 1) <= PAGESIZE && CellShown(p, cell, k)
    requires cell.At? && IsDocument(cell.doc)
    ensures SlotAt(p, k) == cell.off && cell.off + cell.Size() <= PAGESIZE
    ensures WordAt(p, cell.off) == cell.Size()
    ensures WordAt(p, cell.off + 4) == FLAG_NORMAL
    ensures WordAt(p, cell.off + RECORD_HEADER) == |cell.doc|
    ensures p[cell.off + RECORD_HEADER..cell.off + cell.Size()] == cell.doc
  {
    var s, e, b := cell.off, cell.off + cell.Size(), RecordBytes(cell.doc);
    SliceOfSlice(p, s, e, 0, 4);
    SliceOfSlice(p, s, e, 4, 8);
    SliceOfSlice(p, s, e, 8, 12);
    SliceOfSlice(p, s, e, 8, e - s);
    assert b[0..4] == WordBytes(cell.Size());
    assert b[4..8] == WordBytes(FLAG_NORMAL);
    assert b[8..12] == cell.doc[0..4];
    assert b[8..e - s] == cell.doc;
    WordRoundTrip(cell.Size());
    WordRoundTrip(FLAG_NORMAL);
  }

  /** `_recoverSpace` after `i` slots: the page shows the partly compacted layout. */
  predicate Midway(p: seq<byte>, c: Layout, u: Layout, f: nat, i: nat) {
    && Placed(c, f) && FreeSpace(c) >= 0
    && CompactedTo(c, u, i) && UsedTo(c, i) <= PAGESIZE
    && Shows(p, u, f, FreeSpace(c))
  }

  lemma MidwayCell(p: seq<byte>, c: Layout, u: Layout, f: nat, i: nat)
    requires Midway(p, c, u, f, i) && i < |c|
    ensures |p| == PAGESIZE && SlotsEnd(|c|) <= PAGESIZE
    ensures SlotAt(p, i) == c[i].SlotWord() && (c[i].At? <==> SlotAt(p, i) != SLOT_EMPTY)
    ensures c[i].At? ==> c[i].off + c[i].Size() <= PAGESIZE && WordAt(p, c[i].off) == c[i].Size()
    ensures UsedTo(c, i) + c[i].Size() <= PAGESIZE
  {
    hide WordOf, WordBytes, RecordBytes;
    assert CellShown(p, u[i], i) && u[i] == c[i];
    if c[i].At? {
      TargetClear(c, f, u, i);
      CellWords(p, c[i], i);
    }
  }

  /** Leaving slot `i` alone is right when it is empty, or when nothing before it was removed. */
  lemma MidwayKeep(p: seq<byte>, c: Layout, u: Layout, f: nat, i: nat)
    requires Midway(p, c, u, f, i) && i < |c| && (c[i].At? ==> LiveTo(c, i))
    ensures Midway(p, c, u, f, i + 1)
  {
    hide IsDocument, Shows, Packed, Ordered, Bounded, Documents;
    assert u[i] == c[i] && UsedTo(c, i + 1) == UsedTo(c, i) + c[i].Size();
    if c[i].At? {
      TargetClear(c, f, u, i);
      assert c[i] == At(c[i].off, c[i].doc);
    }
    assert u == u[i := Target(c, i)];
    CompactedStep(c, u, i);
  }

  lemma MidwayMove(p: seq<byte>, c: Layout, u: Layout, f: nat, i: nat, dst: nat)
    requires Midway(p, c, u, f, i) && i < |c| && c[i].At? && c[i].off + c[i].Size() <= PAGESIZE
    requires dst == PAGESIZE - UsedTo(c, i) - c[i].Size()
    ensures Midway(Moved(p, i, c[i].off, dst, c[i].Size()), c, u[i := At(dst, c[i].doc)], f, i + 1)
  {
    hide IsDocument, CellShown, HeaderShown;
    TargetClear(c, f, u, i);
    assert u[i] == c[i] && UsedTo(c, i + 1) == UsedTo(c, i) + c[i].Size();
    forall k | 0 <= k < |u| && k != i && u[k].At?
      ensures SlotsEnd(|u|) <= u[k].off && (dst + c[i].Size() <= u[k].off || u[k].off + u[k].Size() <= dst)
    {
      if k > i {
        assert u[k].off + u[k].Size() <= c[i].off;
      }
    }
    MovedShows(p, u, f, FreeSpace(c), i, dst);
    CompactedStep(c, u, i);
  }

  /**
   `_recoverSpace` as written: slots in order, live records pushed up against the page end, records
   before the first hole left where they are. The header, free offset included, is not touched.
   */
  method RecoverSpace(a: array<byte>, base: nat, ghost c: Layout) returns (right: nat, ghost u: Layout)
    requires base + PAGESIZE <= a.Length && Holds(PageOf(a, base), c)
    modifies a
    ensures right == PAGESIZE - Used(c)
    ensures CompactedTo(c, u, |c|) && Holds(PageOf(a, base), u)
    ensures WordAt(PageOf(a, base), AT_FREE_OFFSET) == old(WordAt(PageOf(a, base), AT_FREE_OFFSET))
    ensures KeptElsewhere(a, base)
  {
    hide IsDocument, WordOf, WordBytes, RecordBytes, Placed, CellShown, CompactedTo;
    ghost var f := ReadWord(a, base, AT_FREE_OFFSET);
    var numSlots := ReadWord(a, base, AT_NUM_SLOTS);
    right := PAGESIZE;
    var isRecover := false;
    u := c;
    assert Midway(PageOf(a, base), c, u, f, 0) by { CompactedToZero(c); }
    var i := 0;
    while i < numSlots
      invariant 0 <= i <= numSlots == |c| == |u|
      invariant Midway(PageOf(a, base), c, u, f, i)
      invariant right == PAGESIZE - UsedTo(c, i)
      invariant isRecover == !LiveTo(c, i)
      invariant KeptElsewhere(a, base)
    {
      ghost var p := PageOf(a, base);
      MidwayCell(p, c, u, f, i);
      var slot := ReadWord(a, base, SlotsEnd(i));
      if slot != SLOT_EMPTY {
        var recordSize := ReadWord(a, base, slot);
        right := right - recordSize;
        if isRecover {
          MidwayMove(p, c, u, f, i, right);
          WritePage(a, base, right, PageOf(a, base)[slot..slot + recordSize]);
          WritePage(a, base, SlotsEnd(i), WordBytes(right));
          u := u[i := At(right, c[i].doc)];
        } else {
          MidwayKeep(p, c, u, f, i);
        }
      } else {
        isRecover := true;
        MidwayKeep(p, c, u, f, i);
      }
      i := i + 1;
    }
    MidwayDone(PageOf(a, base), c, u, f);
  }

  lemma CompactedToZero(c: Layout)
    ensures CompactedTo(c, c, 0)
  {
  }

  lemma MidwayDone(p: seq<byte>, c: Layout, u: Layout, f: nat)
    requires Midway(p, c, u, f, |c|)
    ensures CompactedTo(c, u, |c|) && Holds(p, u) && WordAt(p, AT_FREE_OFFSET) == f
  {
    CompactedPlaced(c, f, u);
  }

  /** Had `_recoverSpace` stored its final boundary, the whole free space would be one gap again. */
  lemma StoredBoundaryClosesGap(p: seq<byte>, c: Layout, u: Layout)
    requires Holds(p, u) && CompactedTo(c, u, |c|) && Placed(c, WordAt(p, AT_FREE_OFFSET))
    ensures Used(u) <= PAGESIZE
    ensures var q := Splice(p, AT_FREE_OFFSET, WordBytes(PAGESIZE - Used(u)));
            && Holds(q, u)
            && WordAt(q, AT_FREE_OFFSET) - WordAt(q, AT_SLOT_OFFSET) == WordAt(q, AT_FREE_SPACE)
  {
    hide IsDocument, WordOf, WordBytes, RecordBytes, Packed, Ordered, CompactedTo;
    var f := WordAt(p, AT_FREE_OFFSET);
    CompactedPlaced(c, f, u);
    var b := PAGESIZE - Used(u);
    var q := Splice(p, AT_FREE_OFFSET, WordBytes(b));
    SpliceOutside(p, AT_FREE_OFFSET, WordBytes(b), 0, 4);
    WordUpdate(p, AT_FREE_OFFSET, b, AT_NUM_SLOTS);
    WordUpdate(p, AT_FREE_OFFSET, b, AT_SLOT_OFFSET);
    WordUpdate(p, AT_FREE_OFFSET, b, AT_FREE_SPACE);
    WordUpdate(p, AT_FREE_OFFSET, b, AT_FREE_OFFSET);
    forall k | 0 <= k < |u|
      ensures CellShown(q, u[k], k)
    {
      CellKept(p, AT_FREE_OFFSET, WordBytes(b), u[k], k);
    }
  }

  /** The completion that compaction asks for: `right` stored as the free offset. */
  method CompletedRecoverSpace(a: array<byte>, base: nat, ghost c: Layout) returns (ghost u: Layout)
    requires base + PAGESIZE <= a.Length && Holds(PageOf(a, base), c)
    modifies a
    ensures CompactedTo(c, u, |c|) && Roomy(PageOf(a, base), u) && FreeSpace(u) == FreeSpace(c)
    ensures KeptElsewhere(a, base)
  {
    hide Splice, WordBytes, WordOf, WordAt, CompactedTo, PageOf, Placed, Shows, Roomy, FreeSpace, Used, UsedTo,
      SlotsEnd;
    assert Placed(c, WordAt(PageOf(a, base), AT_FREE_OFFSET));
    var right;
    right, u := RecoverSpace(a, base, c);
    hide Holds;
    CompletedWords(PageOf(a, base), c, u);
    WritePage(a, base, AT_FREE_OFFSET, WordBytes(right));
  }

  /** A page all of whose accounted free space lies in the gap. */
  ghost predicate Roomy(p: seq<byte>, u: Layout) {
    Holds(p, u) && WordAt(p, AT_FREE_OFFSET) - WordAt(p, AT_SLOT_OFFSET) == WordAt(p, AT_FREE_SPACE)
  }

  /**
   The space test of `insert` with that completion: it succeeds exactly when the page's accounted
   free space is enough, however the free bytes were scattered.
   */
  method CompletedSpaceTest(a: array<byte>, base: nat, need: nat, ghost c: Layout) returns (fits: bool, ghost u: Layout)
    requires base + PAGESIZE <= a.Length && Holds(PageOf(a, base), c)
    modifies a
    ensures fits <==> old(WordAt(PageOf(a, base), AT_FREE_SPACE)) >= need
    ensures fits ==> WordAt(PageOf(a, base), AT_FREE_OFFSET) - WordAt(PageOf(a, base), AT_SLOT_OFFSET) >= need
    ensures Holds(PageOf(a, base), u) && (u == c || CompactedTo(c, u, |c|))
    ensures KeptElsewhere(a, base)
  {
    SpaceWords(PageOf(a, base), c);
    hide Splice, WordBytes, WordAt, CompactedTo, PageOf, Placed, Shows, FreeSpace;
    u := c;
    var freeSpace, freeOffset := ReadWord(a, base, AT_FREE_SPACE), ReadWord(a, base, AT_FREE_OFFSET);
    var slotOffset := ReadWord(a, base, AT_SLOT_OFFSET);
    if freeSpace > freeOffset - slotOffset && slotOffset + need > freeOffset {
      u := CompletedRecoverSpace(a, base, c);
      SpaceWords(PageOf(a, base), u);
    }
    freeSpace, freeOffset := ReadWord(a, base, AT_FREE_SPACE), ReadWord(a, base, AT_FREE_OFFSET);
    slotOffset := ReadWord(a, base, AT_SLOT_OFFSET);
    fits := freeSpace >= need && freeOffset - slotOffset >= need;
  }

  lemma SpaceWords(p: seq<byte>, c: Layout)
    requires Holds(p, c)
    ensures |p| == PAGESIZE && WordAt(p, AT_FREE_OFFSET) - WordAt(p, AT_SLOT_OFFSET) <= WordAt(p, AT_FREE_SPACE)
    ensures FreeSpace(c) == WordAt(p, AT_FREE_SPACE) && Placed(c, WordAt(p, AT_FREE_OFFSET))
  {
    UsedFits(c, WordAt(p, AT_FREE_OFFSET));
  }

  lemma CompletedWords(p: seq<byte>, c: Layout, u: Layout)
    requires Holds(p, u) && CompactedTo(c, u, |c|) && Placed(c, WordAt(p, AT_FREE_OFFSET))
    ensures Used(c) <= PAGESIZE && FreeSpace(u) == FreeSpace(c)
    ensures Roomy(Splice(p, AT_FREE_OFFSET, WordBytes(PAGESIZE - Used(c))), u)
  {
    hide Splice, WordBytes, WordOf, WordAt, Shows, Placed, CompactedTo, Used, UsedTo, SlotsEnd;
    CompactedPlaced(c, WordAt(p, AT_FREE_OFFSET), u);
    CompactedSize(c, u);
    StoredBoundaryClosesGap(p, c, u);
  }

  lemma CompactedSize(c: Layout, u: Layout)
    requires CompactedTo(c, u, |c|)
    ensures |u| == |c|
  {
  }

  lemma SpliceTwice(s: seq<byte>, off: nat, x: seq<byte>, y: seq<byte>)
    requires off + |x| + |y| <= |s|
    ensures Splice(Splice(s, off, x), off + |x|, y) == Splice(s, off, x + y)
  {
  }

  /** A page with one more record whose free-space counter is still the old one. */
  predicate Uncounted(b: seq<byte>, c: Layout, off: nat, d: seq<byte>) {
    && Placed(c + [At(off, d)], off) && Used(c + [At(off, d)]) == Used(c) + RECORD_HEADER + |d|
    && FreeSpace(c) >= 0 && Shows(b, c + [At(off, d)], off, FreeSpace(c))
  }

  /** The writes of `insert` up to, and without, the free-space counter. */
  method StoreRecord(a: array<byte>, base: nat, d: seq<byte>, ghost c: Layout)
    requires base + PAGESIZE <= a.Length && Holds(PageOf(a, base), c) && IsDocument(d)
    requires SlotsEnd(|c|) + SLOT_SIZE + RECORD_HEADER + |d| <= WordAt(PageOf(a, base), AT_FREE_OFFSET)
    modifies a
    ensures Uncounted(PageOf(a, base), c, old(WordAt(PageOf(a, base), AT_FREE_OFFSET)) - RECORD_HEADER - |d|, d)
    ensures KeptElsewhere(a, base)
  {
    hide IsDocument, WordOf, WordBytes, Packed, Ordered, Splice, CellShown;
    ghost var p := PageOf(a, base);
    var numSlots := ReadWord(a, base, AT_NUM_SLOTS);
    var slotOffset := ReadWord(a, base, AT_SLOT_OFFSET);
    var freeOffset := ReadWord(a, base, AT_FREE_OFFSET);
    var off := freeOffset - |d| - RECORD_HEADER;
    AppendPlaced(c, freeOffset, d);
    WrittenShows(p, c, freeOffset, FreeSpace(c), d);
    SpliceTwice(Splice(p, SlotsEnd(numSlots), WordBytes(off)), off,
                WordBytes(|d| + RECORD_HEADER) + WordBytes(FLAG_NORMAL), d);
    WritePage(a, base, SlotsEnd(numSlots), WordBytes(off));
    WritePage(a, base, off, WordBytes(|d| + RECORD_HEADER) + WordBytes(FLAG_NORMAL));
    WritePage(a, base, off + RECORD_HEADER, d);
    WritePage(a, base, AT_NUM_SLOTS, WordBytes(numSlots + 1));
    WritePage(a, base, AT_SLOT_OFFSET, WordBytes(slotOffset + SLOT_SIZE));
    WritePage(a, base, AT_FREE_OFFSET, WordBytes(off));
  }
}
