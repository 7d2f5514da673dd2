/** Commit carries out the recorded deletes from the back; when it gets through, and what is left. */
module CommitDeletes {
  import opened Config
  import opened ByteCodec
  import opened SlottedPage
  import opened SlottedUpdate
  import opened HeapCells
  import opened Rollback

  // ---- Empty slots ----

  /** An empty slot has offset 0. */
  ghost predicate Tidy(p: Page) {
    forall i :: 0 <= i < |p.slots| && p.slots[i].size == 0 ==> p.slots[i].offset == 0
  }

  ghost predicate AllTidy(pages: Pages) {
    forall k {:trigger pages[k]} :: k in pages ==> Tidy(pages[k])
  }

  /** Every page operation keeps pages tidy, an update to an empty tuple excepted. */
  lemma StaysTidy(p: Page, i: nat, t: Bytes)
    requires PageOk(p) && Tidy(p) && t != []
    ensures Tidy(InsertTuple(p, t).1) && Tidy(MarkDelete(p, i).1)
    ensures i < |p.slots| ==> Tidy(RollbackDelete(p, i))
    ensures i < |p.slots| && Inside(p, i) ==> Tidy(ApplyDelete(p, i)) && Tidy(UpdateTuple(p, i, t).1)
  {
  }

  /** So does every recorded write. */
  lemma DidTidy(a: Pages, b: Pages, rec: Record)
    requires Did(a, b, rec) && AllTidy(a)
    ensures AllTidy(b)
  {
    var r := rec.rid;
    match rec
    case InsertRec(_) =>
      var t :| DidInsert(a, b, r, t);
      assert PageOk(Page(PAGE_SIZE, [], []));
      StaysTidy(Base(a, r.page), 0, t);
    case DeleteRec(_) => StaysTidy(a[r.page], r.slot, [0]);
    case UpdateRec(_, before) =>
      var t :| DidUpdate(a, b, r, before, t);
      StaysTidy(a[r.page], r.slot, t);
  }

  lemma {:induction false} TracedTidy(trace: seq<Pages>, ws: seq<Record>, n: nat)
    requires Traced(trace, ws) && AllTidy(trace[0]) && n <= |ws|
    ensures AllTidy(trace[n])
  {
    if n > 0 {
      TracedTidy(trace, ws, n - 1);
      assert DidAt(trace, ws, n - 1);
      DidTidy(trace[n - 1], trace[n], ws[n - 1]);
    }
  }

  // ---- The loop ----

  /** The commit loop as a value: ApplyDelete asserts that the slot exists and that its offset is not below the free
    * pointer. */
  function CarryOut(pages: Pages, ws: seq<Record>): Outcome
    decreases |ws|
  {
    if ws == [] then Done(pages)
    else
      var rec, rest := ws[|ws| - 1], ws[..|ws| - 1];
      if !rec.DeleteRec? then CarryOut(pages, rest)
      else if rec.rid.page !in pages || rec.rid.slot >= |pages[rec.rid.page].slots|
        || !Inside(pages[rec.rid.page], rec.rid.slot) then Trips
      else CarryOut(pages[rec.rid.page := ApplyDelete(pages[rec.rid.page], rec.rid.slot)], rest)
  }

  /** The removal that a record asks for can be carried out. */
  predicate Removable(pages: Pages, r: Rid) {
    r.page in pages && r.slot < |pages[r.page].slots| && Inside(pages[r.page], r.slot)
  }

  /** One turn of the loop. */
  lemma CarryOutLast(pages: Pages, ws: seq<Record>)
    requires ws != []
    ensures var rec, rest := ws[|ws| - 1], ws[..|ws| - 1];
      CarryOut(pages, ws) ==
        if !rec.DeleteRec? then CarryOut(pages, rest)
        else if !Removable(pages, rec.rid) then Trips
        else CarryOut(pages[rec.rid.page := ApplyDelete(pages[rec.rid.page], rec.rid.slot)], rest)
  {
  }

  predicate DeletedIn(ws: seq<Record>, r: Rid) { DeleteRec(r) in ws }

  /** What Commit needs: every recorded delete is of a slot that is not empty, and none is recorded twice. */
  ghost predicate DeletesOk(pages: Pages, ws: seq<Record>)
    requires AllOk(pages)
  {
    && (forall k :: 0 <= k < |ws| && ws[k].DeleteRec? ==> CellIn(pages, ws[k].rid) != Empty)
    && (forall j, k :: 0 <= j < k < |ws| && ws[j].DeleteRec? ==> ws[j] != ws[k])
  }

  /** Exactly the recorded slots have been emptied. */
  ghost predicate CarriedOut(at: Pages, ws: seq<Record>, pages: Pages) {
    && AllOk(at) && AllOk(pages)
    && forall r {:trigger CellIn(pages, r)} :: CellIn(pages, r) == if DeletedIn(ws, r) then Empty else CellIn(at, r)
  }

  lemma DeletesOkStep(pages: Pages, ws: seq<Record>, after: Pages)
    requires AllOk(pages) && AllOk(after) && ws != []
    requires var rec := ws[|ws| - 1];
      if rec.DeleteRec? then CellIn(pages, rec.rid) != Empty && Changed(pages, after, rec.rid, Empty)
      else after == pages
    ensures DeletesOk(pages, ws) <==> DeletesOk(after, ws[..|ws| - 1])
  {
    var n := |ws| - 1;
    var rest, rec := ws[..n], ws[n];
    assert forall k :: 0 <= k < n ==> rest[k] == ws[k];
    if rec.DeleteRec? {
      forall k | 0 <= k < n && ws[k].DeleteRec?
        ensures CellIn(after, ws[k].rid) != Empty <==> CellIn(pages, ws[k].rid) != Empty && ws[k] != rec
      {
        if ws[k].rid != rec.rid { assert CellIn(after, ws[k].rid) == CellIn(pages, ws[k].rid); }
      }
    }
  }

  lemma CarriedOutStep(pages: Pages, ws: seq<Record>, after: Pages, result: Pages)
    requires AllOk(pages) && ws != [] && CarriedOut(after, ws[..|ws| - 1], result)
    requires var rec := ws[|ws| - 1]; if rec.DeleteRec? then Changed(pages, after, rec.rid, Empty) else after == pages
    ensures CarriedOut(pages, ws, result)
  {
    var n := |ws| - 1;
    var rest, rec := ws[..n], ws[n];
    assert ws == rest + [rec];
    forall r ensures CellIn(result, r) == if DeletedIn(ws, r) then Empty else CellIn(pages, r) {
      assert CellIn(result, r) == if DeletedIn(rest, r) then Empty else CellIn(after, r);
      if rec == DeleteRec(r) {
        assert CellIn(after, r) == Empty;
      } else {
        assert CellIn(after, r) == CellIn(pages, r);
      }
    }
  }

  lemma RemoveStep(pages: Pages, r: Rid)
    requires AllOk(pages) && AllTidy(pages)
    ensures CellIn(pages, r) != Empty <==>
      r.page in pages && r.slot < |pages[r.page].slots| && Inside(pages[r.page], r.slot)
    ensures CellIn(pages, r) != Empty ==>
      var after := pages[r.page := ApplyDelete(pages[r.page], r.slot)];
        Changed(pages, after, r, Empty) && AllTidy(after)
  {
    if CellIn(pages, r) != Empty {
      RemoveCell(pages[r.page], r.slot);
      PageChanged(pages, r, ApplyDelete(pages[r.page], r.slot), Empty);
      StaysTidy(pages[r.page], r.slot, [0]);
    } else if r.page in pages && r.slot < |pages[r.page].slots| {
      assert PageOk(pages[r.page]) && Tidy(pages[r.page]);
    }
  }

  /** On tidy pages Commit gets through exactly when the recorded deletes are of slots that are not empty, each recorded
    * once; then exactly those slots are emptied. */
  lemma {:induction false} CommitExact(pages: Pages, ws: seq<Record>)
    requires AllOk(pages) && AllTidy(pages)
    ensures CarryOut(pages, ws).Done? <==> DeletesOk(pages, ws)
    ensures CarryOut(pages, ws).Done? ==> CarriedOut(pages, ws, CarryOut(pages, ws).pages)
    decreases |ws|
  {
    if ws != [] {
      var rec, rest := ws[|ws| - 1], ws[..|ws| - 1];
      if !rec.DeleteRec? {
        CommitExact(pages, rest);
        DeletesOkStep(pages, ws, pages);
        if CarryOut(pages, rest).Done? { CarriedOutStep(pages, ws, pages, CarryOut(pages, rest).pages); }
      } else {
        RemoveStep(pages, rec.rid);
        if CellIn(pages, rec.rid) != Empty {
          var after := pages[rec.rid.page := ApplyDelete(pages[rec.rid.page], rec.rid.slot)];
          CommitExact(after, rest);
          DeletesOkStep(pages, ws, after);
          if CarryOut(after, rest).Done? { CarriedOutStep(pages, ws, after, CarryOut(after, rest).pages); }
        }
      }
    }
  }

  // ---- Deletes of live tuples ----

  /** Every delete was of a live tuple. */
  ghost predicate LiveDeletes(trace: seq<Pages>, ws: seq<Record>)
    requires |trace| == |ws| + 1
  {
    forall k :: 0 <= k < |ws| && ws[k].DeleteRec? ==> LiveAt(trace[k], ws[k].rid)
  }

  /** A tuple deleted by the transaction stays marked, and no later write of it touches that slot. */
  lemma {:induction false} StaysMarked(trace: seq<Pages>, ws: seq<Record>, k: nat, m: nat)
    requires Traced(trace, ws) && LiveDeletes(trace, ws) && k < m <= |ws| && ws[k].DeleteRec?
    ensures AllOk(trace[m]) && CellIn(trace[m], ws[k].rid).Marked?
    ensures forall j :: k < j < m ==> ws[j].rid != ws[k].rid
    decreases m
  {
    var r := ws[k].rid;
    if m == k + 1 {
      assert DidAt(trace, ws, k);
      DidCells(trace[k], trace[k + 1], ws[k]);
      LiveCell(trace[k][r.page], r.slot);
    } else {
      var n := m - 1;
      StaysMarked(trace, ws, k, n);
      assert DidAt(trace, ws, n);
      MarkedWrite(trace[n], trace[m], ws[n], r);
    }
  }

  /** If every delete was of a live tuple, Commit gets through, and what it empties was marked: no live tuple
    * changes. */
  lemma CommitOfLiveDeletes(trace: seq<Pages>, ws: seq<Record>)
    requires Traced(trace, ws) && LiveDeletes(trace, ws) && AllOk(trace[|ws|]) && AllTidy(trace[0])
    ensures var o := CarryOut(trace[|ws|], ws);
      && o.Done? && CarriedOut(trace[|ws|], ws, o.pages)
      && forall r :: CellIn(trace[|ws|], r).Live? || CellIn(o.pages, r).Live? ==>
         CellIn(o.pages, r) == CellIn(trace[|ws|], r)
  {
    var at := trace[|ws|];
    TracedTidy(trace, ws, |ws|);
    forall k | 0 <= k < |ws| && ws[k].DeleteRec?
      ensures CellIn(at, ws[k].rid).Marked? && forall j :: k < j < |ws| ==> ws[j].rid != ws[k].rid
    {
      StaysMarked(trace, ws, k, |ws|);
    }
    CommitExact(at, ws);
    forall r | DeletedIn(ws, r) ensures CellIn(at, r).Marked? {
      var k :| 0 <= k < |ws| && ws[k] == DeleteRec(r);
      assert CellIn(at, ws[k].rid).Marked?;
    }
  }

  /** A record twice in the write set. */
  lemma TwiceTrips(pages: Pages, r: Rid)
    requires AllOk(pages) && AllTidy(pages)
    ensures CarryOut(pages, [DeleteRec(r), DeleteRec(r)]) == Trips
  {
    var ws := [DeleteRec(r), DeleteRec(r)];
    CommitExact(pages, ws);
    assert ws[0] == ws[1] && ws[0].DeleteRec?;
  }

  /** Deleting the same live tuple twice and committing: the second removal finds the slot empty and trips the
    * assertion. */
  lemma DeletedTwice(pages: Pages, r: Rid)
    requires AllOk(pages) && AllTidy(pages) && LiveAt(pages, r)
    ensures var once := pages[r.page := MarkDelete(pages[r.page], r.slot).1];
      var twice := once[r.page := MarkDelete(once[r.page], r.slot).1];
      AllOk(twice) && CarryOut(twice, [DeleteRec(r), DeleteRec(r)]) == Trips
  {
    var p := pages[r.page];
    MarkCell(p, r.slot);
    StaysTidy(p, r.slot, [0]);
    var q := MarkDelete(p, r.slot).1;
    MarkCell(q, r.slot);
    StaysTidy(q, r.slot, [0]);
    var once := pages[r.page := q];
    TwiceTrips(once[r.page := MarkDelete(q, r.slot).1], r);
  }
}
