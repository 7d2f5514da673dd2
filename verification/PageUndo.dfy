/** Undoing a page operation gives back the very page, but for directory entries that stay behind empty. */
module PageUndo {
  import opened ByteCodec
  import opened SlottedPage
  import opened SlottedUpdate

  ghost predicate LikeSlot(p: Page, q: Page, i: int) {
    (Used(p, i) <==> Used(q, i)) && (Used(p, i) ==> q.slots[i] == p.slots[i])
  }

  /** q is p but for empty slots: the same tuple area and the same used slots, and at least as many slots. */
  ghost predicate Like(p: Page, q: Page) {
    && q.size == p.size && q.tail == p.tail && |q.slots| >= |p.slots|
    && forall i {:trigger LikeSlot(p, q, i)} :: LikeSlot(p, q, i)
  }

  lemma LikeRoom(p: Page, q: Page)
    requires Like(p, q)
    ensures Room(q) == Room(p) - 8 * (|q.slots| - |p.slots|)
  {
  }

  /** Whatever holds of the tuples of p holds of those of q. */
  lemma LikeOk(p: Page, q: Page)
    requires PageOk(p) && Like(p, q) && Room(q) >= 0
    ensures PageOk(q)
  {
    forall i | Used(q, i) ensures Inside(q, i) { assert LikeSlot(p, q, i) && Inside(p, i); }
    forall i, j | Used(q, i) && Used(q, j) && i != j ensures Apart(q, i, j) {
      assert LikeSlot(p, q, i) && LikeSlot(p, q, j) && Apart(p, i, j);
    }
    forall x | Free(q) <= x < q.size ensures Covered(q, x) {
      assert Covered(p, x);
      var i :| Has(p, i, x);
      assert LikeSlot(p, q, i);
      assert Has(q, i, x);
    }
  }

  lemma LikeTuple(p: Page, q: Page, i: int)
    requires Like(p, q) && Used(p, i) && Inside(p, i)
    ensures Used(q, i) && Inside(q, i) && TupleAt(q, i) == TupleAt(p, i)
  {
    assert LikeSlot(p, q, i);
  }

  /** An insert is undone by removing the tuple, on any page like the one after it. */
  lemma UndoInsert(p: Page, t: Bytes, q: Page)
    requires PageOk(p) && t != [] && InsertTuple(p, t).0.In? && Like(InsertTuple(p, t).1, q)
    ensures var i := InsertTuple(p, t).0.slot;
      i < |q.slots| && Used(q, i) && Inside(q, i) && Like(p, ApplyDelete(q, i))
        && |ApplyDelete(q, i).slots| == |q.slots|
  {
    var i, p1 := InsertTuple(p, t).0.slot, InsertTuple(p, t).1;
    InsertOk(p, t);
    LikeTuple(p1, q, i);
    var r := ApplyDelete(q, i);
    assert LikeSlot(p1, q, i);
    assert q.slots[i] == Slot(Free(p) - |t|, |t|);
    assert r.tail == p.tail;
    forall j ensures LikeSlot(p, r, j) {
      assert LikeSlot(p1, q, j);
      assert Used(p, j) ==> Inside(p, j);
      assert 0 <= j < |q.slots| ==> r.slots[j] == Closed(q.slots, i, j);
    }
  }

  /** A mark is undone by turning the sign back. */
  lemma UndoMark(p: Page, i: nat, q: Page)
    requires i < |p.slots| && p.slots[i].size > 0 && Like(MarkDelete(p, i).1, q)
    ensures i < |q.slots| && Like(p, RollbackDelete(q, i)) && |RollbackDelete(q, i).slots| == |q.slots|
  {
    var p1, r := MarkDelete(p, i).1, RollbackDelete(q, i);
    assert LikeSlot(p1, q, i);
    forall j ensures LikeSlot(p, r, j) { assert LikeSlot(p1, q, j); }
  }

  /** The update back: the old bytes go in where the new ones are. */
  lemma SpliceBack(p: Page, i: nat, t: Bytes, q: Page)
    requires PageOk(p) && Used(p, i) && Inside(p, i) && p.slots[i].size > 0 && t != [] && i < |q.slots|
      && q.size == p.size
    requires q.tail == Splice(p, i, t) && q.slots[i] == Shifted(p.slots, i, |t|, i)
    ensures Inside(q, i) && Splice(q, i, TupleAt(p, i)) == p.tail
  {
    var a, b := p.slots[i].offset - Free(p), p.slots[i].End() - Free(p);
    assert Free(q) == Free(p) + p.slots[i].size - |t|;
    assert q.slots[i].offset - Free(q) == a && q.slots[i].End() - Free(q) == a + |t|;
    assert q.tail == p.tail[..a] + t + p.tail[b..];
    assert q.tail[..a] == p.tail[..a] && q.tail[a + |t|..] == p.tail[b..];
    assert p.tail == p.tail[..a] + p.tail[a..b] + p.tail[b..];
  }

  lemma ShiftBack(p: Page, i: nat, n: nat, slots: seq<Slot>, j: nat)
    requires PageOk(p) && Used(p, i) && p.slots[i].size > 0 && n > 0 && UpdateSafe(p, i, n)
    requires Used(p, j) && i < |slots| && j < |slots| && slots[i] == Shifted(p.slots, i, n, i)
      && slots[j] == Shifted(p.slots, i, n, j)
    ensures Shifted(slots, i, p.slots[i].size, j) == p.slots[j]
  {
    if j != i { ShiftedIs(p, i, n, j); }
  }

  /** An update that was safe is undone by the update back, which gives the page back, exactly if there is room for
    * it. */
  lemma UndoUpdate(p: Page, i: nat, t: Bytes, q: Page)
    requires PageOk(p) && i < |p.slots| && p.slots[i].size > 0 && Inside(p, i) && UpdateSafe(p, i, |t|) && t != []
    requires Like(Rewritten(p, i, t), q)
    ensures i < |q.slots| && q.slots[i].size == |t| && Inside(q, i)
    ensures UpdateTuple(q, i, TupleAt(p, i)).0.Updated? <==> Room(q) >= p.slots[i].size - |t|
    ensures UpdateTuple(q, i, TupleAt(p, i)).0.Updated? ==>
      Like(p, UpdateTuple(q, i, TupleAt(p, i)).1) && |UpdateTuple(q, i, TupleAt(p, i)).1.slots| == |q.slots|
  {
    var p1 := Rewritten(p, i, t);
    assert LikeSlot(p1, q, i) && Used(p1, i);
    SpliceBack(p, i, t, q);
    var r := Page(q.size, ShiftAll(q.slots, i, p.slots[i].size), Splice(q, i, TupleAt(p, i)));
    forall j ensures LikeSlot(p, r, j) {
      assert LikeSlot(p1, q, j);
      if Used(p, j) { ShiftBack(p, i, |t|, q.slots, j); }
    }
  }

  /** An update to an empty tuple empties the slot, and the update back does not go through. */
  lemma UndoEmptied(p: Page, i: nat, q: Page)
    requires PageOk(p) && i < |p.slots| && p.slots[i].size > 0 && Inside(p, i) && Like(Rewritten(p, i, []), q)
    ensures !Used(q, i) && UpdateTuple(q, i, TupleAt(p, i)) == (NotUpdated, q)
  {
    assert LikeSlot(Rewritten(p, i, []), q, i);
  }

  /** With no entries appended in between, a safe update and its undo cancel out. */
  lemma UpdateTwice(p: Page, i: nat, t: Bytes)
    requires PageOk(p) && i < |p.slots| && p.slots[i].size > 0 && Inside(p, i) && UpdateSafe(p, i, |t|) && t != []
    requires Room(p) >= |t| - p.slots[i].size
    ensures var p1 := UpdateTuple(p, i, t).1;
      Inside(p1, i) && UpdateTuple(p1, i, TupleAt(p, i)).0 == Updated(t) && Like(p, UpdateTuple(p1, i, TupleAt(p, i)).1)
  {
    var p1 := UpdateTuple(p, i, t).1;
    assert Like(p1, p1);
    UndoUpdate(p, i, t, p1);
    UpdateKeepsOthers(p, i, t);
  }
}
