/** A session is determined by where it starts and what is asked: no freedom is left to the file. */
module HeapSessions {
  import opened Bytes
  import opened DmsPage
  import opened FreeMap
  import opened DmsFile
  import opened FreeOrder
  import opened HeapHistory

  /** No operation can tell the two apart. */
  ghost predicate SameView(v: View, w: View) {
    Alike(v.pages, w.pages) && v.stamps == w.stamps && v.clock == w.clock
  }

  lemma AlikePages(ps: seq<PageState>, qs: seq<PageState>, q: nat)
    requires Alike(ps, qs) && q < |ps|
    ensures |ps| == |qs| && FreeSpace(ps[q].cells) == FreeSpace(qs[q].cells) && |ps[q].cells| == |qs[q].cells|
    ensures ps[q].freeOffset == qs[q].freeOffset
  {
    UsedSame(ps[q].cells, qs[q].cells, |ps[q].cells|);
  }

  lemma FirstAlike(ps: seq<PageState>, qs: seq<PageState>, stamps: seq<nat>, required: nat, p: nat)
    requires Alike(ps, qs) && First(ps, stamps, required, p)
    ensures First(qs, stamps, required, p)
  {
    hide Alike, FreeSpace;
    AlikePages(ps, qs, p);
    forall q: nat | q < |qs| && q != p && required < FreeSpace(qs[q].cells)
      ensures Before(qs, stamps, p, q)
    {
      AlikePages(ps, qs, q);
      assert Before(ps, stamps, p, q);
    }
  }

  lemma AlikeSymmetric(ps: seq<PageState>, qs: seq<PageState>)
    requires Alike(ps, qs)
    ensures Alike(qs, ps)
  {
  }

  lemma AlikeTrans(ps: seq<PageState>, qs: seq<PageState>, rs: seq<PageState>)
    requires Alike(ps, qs) && Alike(qs, rs)
    ensures Alike(ps, rs)
  {
  }

  lemma RoomAlike(ps: seq<PageState>, qs: seq<PageState>, required: nat)
    requires Alike(ps, qs)
    ensures HasRoom(ps, required) <==> HasRoom(qs, required)
  {
    hide Alike, FreeSpace;
    assert |ps| == |qs| by { AlikeSize(ps, qs); }
    forall q: nat | q < |ps|
      ensures FreeSpace(ps[q].cells) == FreeSpace(qs[q].cells)
    {
      AlikePages(ps, qs, q);
    }
  }

  lemma AlikeSize(ps: seq<PageState>, qs: seq<PageState>)
    requires Alike(ps, qs)
    ensures |ps| == |qs|
  {
  }

  lemma OfferedAlike(v: View, w: View, required: nat)
    requires SameView(v, w)
    ensures SameView(Offered(v, required), Offered(w, required))
  {
    hide HasRoom, Stamped, Alike;
    RoomAlike(v.pages, w.pages, required);
    ExtendedAlike(v.pages, w.pages);
  }

  lemma ExtendedAlike(ps: seq<PageState>, qs: seq<PageState>)
    requires Alike(ps, qs)
    ensures Alike(ps + NewPages(PAGES_PER_SEGMENT), qs + NewPages(PAGES_PER_SEGMENT))
  {
    var n, xs, ys := NewPages(PAGES_PER_SEGMENT), ps + NewPages(PAGES_PER_SEGMENT), qs + NewPages(PAGES_PER_SEGMENT);
    forall q: nat | q < |xs|
      ensures |xs[q].cells| == |ys[q].cells| && xs[q].freeOffset == ys[q].freeOffset
      ensures forall k :: 0 <= k < |xs[q].cells| ==>
                (xs[q].cells[k].At? <==> ys[q].cells[k].At?)
                    && (xs[q].cells[k].At? ==> xs[q].cells[k].doc == ys[q].cells[k].doc)
    {
      if q < |ps| {
        assert xs[q] == ps[q] && ys[q] == qs[q];
      } else {
        assert xs[q] == ys[q] == FRESH_PAGE;
      }
    }
  }

  lemma LiveAlike(ps: seq<PageState>, qs: seq<PageState>, r: Rid)
    requires Alike(ps, qs)
    ensures IsLive(ps, r) <==> IsLive(qs, r)
    ensures IsLive(ps, r) ==> ps[r.page].cells[r.slot].doc == qs[r.page].cells[r.slot].doc
  {
  }

  /** Two views that are alike give one answer, and each view gives one. */
  lemma OneAnswer(v: View, w: View, op: Op, e: Event, f: Event)
    requires SameView(v, w) && Answers(v, op, e) && Answers(w, op, f)
    ensures e == f
  {
    match op
    case PutOp(d, hasId, fileExtends) =>
      hide Alike, Offered, HasRoom, PutSomewhere;
      RoomAlike(v.pages, w.pages, |d| + RECORD_HEADER);
      if !TurnedAway(v, d, hasId, fileExtends) {
        OfferedAlike(v, w, |d| + RECORD_HEADER);
        OnePut(Offered(v, |d| + RECORD_HEADER), Offered(w, |d| + RECORD_HEADER), d, e, f);
      }
    case DropOp(r) => LiveAlike(v.pages, w.pages, r);
    case GetOp(r) => LiveAlike(v.pages, w.pages, r);
  }

  lemma OnePut(o: View, x: View, d: seq<byte>, e: Event, f: Event)
    requires SameView(o, x) && PutSomewhere(o, d, e) && PutSomewhere(x, d, f)
    ensures e == f
  {
    hide First, FreeSpace, Alike, SlotsEnd;
    var p: nat :| PutAt(o, d, p, e);
    var q: nat :| PutAt(x, d, q, f);
    FirstAlike(o.pages, x.pages, o.stamps, |d| + RECORD_HEADER, p);
    FirstIsOne(x.pages, x.stamps, |d| + RECORD_HEADER, p, q);
    assert p < |o.pages| by { FirstInside(o.pages, o.stamps, |d| + RECORD_HEADER, p); }
    AlikePages(o.pages, x.pages, p);
  }

  lemma FirstInside(ps: seq<PageState>, stamps: seq<nat>, required: nat, p: nat)
    requires First(ps, stamps, required, p)
    ensures p < |ps|
  {
  }

  lemma StoredAlike(ps: seq<PageState>, qs: seq<PageState>, p: nat, d: seq<byte>)
    requires Alike(ps, qs) && p < |ps| && p < |qs|
    requires RECORD_HEADER + |d| <= ps[p].freeOffset && RECORD_HEADER + |d| <= qs[p].freeOffset
    ensures Alike(WithRecord(ps, p, d), WithRecord(qs, p, d))
  {
  }

  lemma DroppedAlike(ps: seq<PageState>, qs: seq<PageState>, r: Rid)
    requires Alike(ps, qs) && IsLive(ps, r) && IsLive(qs, r)
    ensures Alike(WithoutRecord(ps, r), WithoutRecord(qs, r))
  {
  }

  lemma NextAlike(v: View, w: View, op: Op, e: Event, v1: View, w1: View)
    requires SameView(v, w) && Next(v, op, e, v1) && Next(w, op, e, w1)
    ensures SameView(v1, w1)
  {
    hide Alike, WithRecord, WithoutRecord, IsLive;
    match op
    case PutOp(d, hasId, fileExtends) =>
      RoomAlike(v.pages, w.pages, |d| + RECORD_HEADER);
      OfferedAlike(v, w, |d| + RECORD_HEADER);
      hide HasRoom, Offered;
      if !TurnedAway(v, d, hasId, fileExtends) {
        var o, x := Offered(v, |d| + RECORD_HEADER), Offered(w, |d| + RECORD_HEADER);
        if e.Put? {
          StoredAlike(o.pages, x.pages, e.rid.page, d);
        } else {
          AlikeSymmetric(o.pages, v1.pages);
          AlikeTrans(v1.pages, o.pages, x.pages);
          AlikeTrans(v1.pages, x.pages, w1.pages);
        }
      }
    case DropOp(r) =>
      if e == Dropped(r) {
        DroppedAlike(v.pages, w.pages, r);
      }
    case GetOp(_) =>
  }

  /**
   Sessions that start on files with the same view and ask the same get the same answers: record ids,
   failures and documents.
   */
  lemma {:induction false} SessionsAgree(t: seq<View>, u: seq<View>, ops: seq<Op>, es: seq<Event>, fs: seq<Event>,
      i: nat)
    requires IsSession(t, ops, es) && IsSession(u, ops, fs) && SameView(t[0], u[0]) && i <= |es| && i <= |fs|
    ensures es[..i] == fs[..i] && SameView(t[i], u[i])
  {
    if i > 0 {
      var k := i - 1;
      hide SameView, Next, Answers, IsRun;
      SessionsAgree(t, u, ops, es, fs, k);
      assert Answers(t[k], ops[k], es[k]) && Next(t[k], ops[k], es[k], t[k + 1]);
      assert Answers(u[k], ops[k], fs[k]) && Next(u[k], ops[k], fs[k], u[k + 1]);
      OneAnswer(t[k], u[k], ops[k], es[k], fs[k]);
      NextAlike(t[k], u[k], ops[k], es[k], t[i], u[i]);
      assert es[..i] == es[..k] + [es[k]] && fs[..i] == fs[..k] + [fs[k]];
    }
  }

  /** On a new file the first document stored is record 0 of page 0. */
  lemma FirstPut(trace: seq<View>, ops: seq<Op>, es: seq<Event>)
    requires IsSession(trace, ops, es) && trace[0].pages == [] && |trace[0].stamps| == 0 && es != [] && es[0].Put?
    ensures es[0].rid == Rid(0, 0)
  {
    hide IsRun, Next;
    var v := trace[0];
    assert Answers(v, ops[0], es[0]);
    assert ops[0].PutOp?;
    var d := ops[0].doc;
    var o := Offered(v, |d| + RECORD_HEADER);
    assert !HasRoom(v.pages, |d| + RECORD_HEADER);
    var p: nat :| PutAt(o, d, p, es[0]);
    FreshFirst(o.pages, o.stamps, v.clock, |d| + RECORD_HEADER, p);
    FirstIsOne(o.pages, o.stamps, |d| + RECORD_HEADER, p, 0);
  }

  /** Of the pages of one new segment the first comes first. */
  lemma FreshFirst(ps: seq<PageState>, stamps: seq<nat>, clock: nat, required: nat, p: nat)
    requires |stamps| == |ps| && First(ps, stamps, required, p)
    requires forall q :: 0 <= q < |ps| ==> ps[q] == FRESH_PAGE && stamps[q] == clock + q
    ensures First(ps, stamps, required, 0)
  {
    hide FreeSpace;
    assert ps[p] == ps[0];
    forall q: nat | q < |ps| && q != 0 && required < FreeSpace(ps[q].cells)
      ensures Before(ps, stamps, 0, q)
    {
      assert ps[q] == ps[0] && stamps[0] < stamps[q];
    }
  }
}
