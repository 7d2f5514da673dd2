/** A page on which some tuples have other bytes than they should, all else being as it should: undoing one operation
  * after another on such a page keeps it well formed. */
module NearPage {
  import opened ByteCodec
  import opened SlottedPage
  import opened SlottedUpdate
  import opened PageUndo
  import opened HeapCells
  import opened Revival

  // ---- The order of the tuples ----

  ghost predicate InOrder(p: Page, q: Page, i: int, j: int) {
    Used(p, i) && Used(p, j) && p.slots[i].offset < p.slots[j].offset ==>
      Used(q, i) && Used(q, j) && q.slots[i].offset < q.slots[j].offset
  }

  /** The tuples of p lie in the same order on q. */
  ghost predicate Ordered(p: Page, q: Page) {
    forall i, j {:trigger InOrder(p, q, i, j)} :: InOrder(p, q, i, j)
  }

  lemma OrderedTrans(p: Page, q: Page, r: Page)
    requires Ordered(p, q) && Ordered(q, r)
    ensures Ordered(p, r)
  {
    forall i, j ensures InOrder(p, r, i, j) { assert InOrder(p, q, i, j) && InOrder(q, r, i, j); }
  }

  lemma RewrittenOrdered(p: Page, i: nat, t: Bytes)
    requires PageOk(p) && Used(p, i) && p.slots[i].size > 0 && Inside(p, i) && UpdateSafe(p, i, |t|) && t != []
    ensures Ordered(p, Rewritten(p, i, t))
  {
    var q := Rewritten(p, i, t);
    forall j, l ensures InOrder(p, q, j, l) {
      if Used(p, j) && Used(p, l) {
        if j != i { ShiftedIs(p, i, |t|, j); }
        if l != i { ShiftedIs(p, i, |t|, l); }
      }
    }
  }

  /** Nothing marked lies below slot i. */
  ghost predicate NoneBelow(p: Page, i: nat)
    requires i < |p.slots|
  {
    forall j {:trigger MarkedBelow(p, i, j)} :: !MarkedBelow(p, i, j)
  }

  // ---- Near pages ----

  /** Slot i of q holds what it holds on p, but that a tuple in `lost` has other bytes; nothing marked is below such a
    * tuple. */
  ghost predicate NearSlot(p: Page, q: Page, k: int, lost: set<Rid>, i: nat)
    requires PageOk(p) && PageOk(q)
  {
    if Rid(k, i) in lost
    then CellAt(q, i) != CellAt(p, i) && CellAt(p, i).Live? && CellAt(q, i).Live? && NoneBelow(p, i)
    else CellAt(q, i) == CellAt(p, i)
  }

  ghost predicate Near(p: Page, q: Page, k: int, lost: set<Rid>) {
    && PageOk(p) && PageOk(q) && q.size == p.size && |q.slots| >= |p.slots| && Ordered(p, q)
    && forall i: nat {:trigger NearSlot(p, q, k, lost, i)} :: NearSlot(p, q, k, lost, i)
  }

  /** A page that is like p is near it. */
  lemma LikeNear(p: Page, q: Page, k: int)
    requires PageOk(p) && PageOk(q) && Like(p, q)
    ensures Near(p, q, k, {})
  {
    forall i: nat ensures CellAt(q, i) == CellAt(p, i) {
      assert LikeSlot(p, q, i);
      if Used(p, i) { LikeTuple(p, q, i); }
    }
    forall i: nat ensures NearSlot(p, q, k, {}, i) { }
    forall i, j ensures InOrder(p, q, i, j) { assert LikeSlot(p, q, i) && LikeSlot(p, q, j); }
  }

  /** Near pages agree on what is marked and below what. */
  lemma MarkedOnBoth(p: Page, q: Page, k: int, lost: set<Rid>, i: nat, j: nat)
    requires Near(p, q, k, lost) && Used(p, i) && Used(q, i) && MarkedBelow(q, i, j)
    ensures MarkedBelow(p, i, j)
  {
    assert NearSlot(p, q, k, lost, j) && CellAt(q, j).Marked?;
    assert Apart(p, i, j) && InOrder(p, q, i, j);
  }

  lemma NearBelow(p: Page, q: Page, k: int, lost: set<Rid>, i: nat)
    requires Near(p, q, k, lost) && Used(p, i) && NoneBelow(p, i)
    ensures Used(q, i) && NoneBelow(q, i)
  {
    assert NearSlot(p, q, k, lost, i);
    forall j ensures !MarkedBelow(q, i, j) {
      if MarkedBelow(q, i, j) { MarkedOnBoth(p, q, k, lost, i, j); }
    }
  }

  /** Undoing an insert. */
  lemma NearInsert(p: Page, t: Bytes, q: Page, k: int, lost: set<Rid>)
    requires PageOk(p) && t != [] && InsertTuple(p, t).0.In? && Near(InsertTuple(p, t).1, q, k, lost)
    ensures var i := InsertTuple(p, t).0.slot;
      Used(q, i) && Inside(q, i) && Near(p, ApplyDelete(q, i), k, lost - {Rid(k, i)})
  {
    var i := InsertTuple(p, t).0.slot;
    InsertCell(p, t);
    assert NearSlot(InsertTuple(p, t).1, q, k, lost, i);
    RemoveCell(q, i);
    ApplyDeleteOk(q, i);
    forall j: nat ensures NearSlot(p, ApplyDelete(q, i), k, lost - {Rid(k, i)}, j) {
      if j != i { NearInsertSlot(p, t, q, k, lost, j); }
    }
    InsertOrdered(p, t);
    RemovedOrdered(p, InsertTuple(p, t).1, q, i);
  }

  lemma InsertOrdered(p: Page, t: Bytes)
    requires PageOk(p) && t != [] && InsertTuple(p, t).0.In?
    ensures Ordered(p, InsertTuple(p, t).1) && !Used(p, InsertTuple(p, t).0.slot)
  {
    forall j, l ensures InOrder(p, InsertTuple(p, t).1, j, l) { }
  }

  /** Removing a tuple that p does not have leaves the others in order. */
  lemma RemovedOrdered(p: Page, p1: Page, q: Page, i: nat)
    requires Ordered(p, p1) && Ordered(p1, q) && !Used(p, i) && PageOk(q) && Used(q, i) && Inside(q, i)
    ensures Ordered(p, ApplyDelete(q, i))
  {
    forall j, l ensures InOrder(p, ApplyDelete(q, i), j, l) {
      assert InOrder(p, p1, j, l) && InOrder(p1, q, j, l);
      if Used(q, j) && Used(q, l) && j != i && l != i { assert Apart(q, i, j) && Apart(q, i, l); }
    }
  }

  lemma NearInsertSlot(p: Page, t: Bytes, q: Page, k: int, lost: set<Rid>, j: nat)
    requires PageOk(p) && t != [] && InsertTuple(p, t).0.In? && Near(InsertTuple(p, t).1, q, k, lost)
    requires var i := InsertTuple(p, t).0.slot; j != i && Used(q, i) && Inside(q, i)
    requires PageOk(ApplyDelete(q, InsertTuple(p, t).0.slot))
    ensures NearSlot(p, ApplyDelete(q, InsertTuple(p, t).0.slot), k, lost, j)
  {
    var i, p1 := InsertTuple(p, t).0.slot, InsertTuple(p, t).1;
    InsertCell(p, t);
    RemoveCell(q, i);
    assert NearSlot(p1, q, k, lost, j) && CellAt(p1, j) == CellAt(p, j) && CellAt(ApplyDelete(q, i), j) == CellAt(q, j);
    if CellAt(q, j) != CellAt(p, j) {
      forall l ensures !MarkedBelow(p, j, l) { assert !MarkedBelow(p1, j, l); }
    }
  }

  /** Undoing a safe update: it goes through safely and puts the old bytes back, or it is refused and one more tuple
    * is lost. */
  lemma NearUpdate(p: Page, i: nat, t: Bytes, q: Page, k: int, lost: set<Rid>)
    requires PageOk(p) && i < |p.slots| && p.slots[i].size > 0 && Inside(p, i) && UpdateSafe(p, i, |t|) && t != []
    requires Near(Rewritten(p, i, t), q, k, lost)
    ensures i < |q.slots| && q.slots[i].size > 0 && Inside(q, i)
    ensures var (u, r) := UpdateTuple(q, i, TupleAt(p, i));
      if u.Updated? then Near(p, r, k, lost - {Rid(k, i)}) else r == q && Near(p, q, k, lost + {Rid(k, i)})
  {
    var p1, before := Rewritten(p, i, t), TupleAt(p, i);
    RewrittenCells(p, i, t);
    RewrittenOrdered(p, i, t);
    OrderedTrans(p, p1, q);
    assert NearSlot(p1, q, k, lost, i) && CellAt(p1, i).Live?;
    assert Inside(q, i);
    NearUpdateSafe(p, i, t, q, k, lost);
    var (u, r) := UpdateTuple(q, i, before);
    if u.Updated? {
      UpdateCell(q, i, before);
      RewrittenOrdered(q, i, before);
      OrderedTrans(p, q, r);
      forall j: nat ensures NearSlot(p, r, k, lost - {Rid(k, i)}, j) {
        if j != i { NearUpdateSlot(p, i, t, q, k, lost, j); }
      }
    } else {
      forall j: nat ensures NearSlot(p, q, k, lost + {Rid(k, i)}, j) {
        if j != i { NearUpdateSlot(p, i, t, q, k, lost, j); }
      }
    }
  }

  lemma RewrittenCells(p: Page, i: nat, t: Bytes)
    requires PageOk(p) && i < |p.slots| && p.slots[i].size > 0 && Inside(p, i) && UpdateSafe(p, i, |t|) && t != []
    requires PageOk(Rewritten(p, i, t))
    ensures CellChanged(p, Rewritten(p, i, t), i, Live(t))
  {
    UpdateKeepsOthers(p, i, t);
    CellsOf(p, Rewritten(p, i, t), i);
  }

  lemma NearUpdateSlot(p: Page, i: nat, t: Bytes, q: Page, k: int, lost: set<Rid>, j: nat)
    requires PageOk(p) && i < |p.slots| && p.slots[i].size > 0 && Inside(p, i) && UpdateSafe(p, i, |t|) && t != []
    requires Near(Rewritten(p, i, t), q, k, lost) && j != i
    ensures NearSlot(p, q, k, lost, j)
  {
    var p1 := Rewritten(p, i, t);
    RewrittenCells(p, i, t);
    assert NearSlot(p1, q, k, lost, j) && CellAt(p1, j) == CellAt(p, j);
    if CellAt(q, j) != CellAt(p, j) { BelowBefore(p, i, t, j); }
  }

  /** What is below slot j before a safe update is below it afterwards. */
  lemma BelowBefore(p: Page, i: nat, t: Bytes, j: nat)
    requires PageOk(p) && i < |p.slots| && p.slots[i].size > 0 && Inside(p, i) && UpdateSafe(p, i, |t|) && t != []
    requires Used(p, j) && NoneBelow(Rewritten(p, i, t), j)
    ensures NoneBelow(p, j)
  {
    var p1 := Rewritten(p, i, t);
    RewrittenOrdered(p, i, t);
    forall l ensures !MarkedBelow(p, j, l) {
      assert InOrder(p, p1, l, j) && !MarkedBelow(p1, j, l);
    }
  }

  /** The update back is safe; where its length differs nothing marked is below it. */
  lemma NearUpdateSafe(p: Page, i: nat, t: Bytes, q: Page, k: int, lost: set<Rid>)
    requires PageOk(p) && i < |p.slots| && p.slots[i].size > 0 && Inside(p, i) && UpdateSafe(p, i, |t|) && t != []
    requires Near(Rewritten(p, i, t), q, k, lost) && Used(q, i)
    ensures UpdateSafe(q, i, p.slots[i].size)
    ensures q.slots[i].size != p.slots[i].size ==> NoneBelow(p, i)
  {
    var p1 := Rewritten(p, i, t);
    RewrittenCells(p, i, t);
    assert NearSlot(p1, q, k, lost, i) && CellAt(p1, i) == Live(t);
    if q.slots[i].size != p.slots[i].size {
      if CellAt(q, i) != Live(t) { BelowBefore(p, i, t, i); }
      forall j ensures !MarkedBelow(p1, i, j) {
        assert !MarkedBelow(p, i, j);
        if MarkedBelow(p1, i, j) { ShiftedIs(p, i, |t|, j); }
      }
      NearBelow(p1, q, k, lost, i);
    }
  }

  /** Undoing a delete, whatever it found. */
  lemma NearMark(p: Page, k: int, back: set<Rid>, i: nat, q: Page, lost: set<Rid>)
    requires PageOk(p) && Near(Revived(MarkDelete(p, i).1, k, back), q, k, lost) && i < |q.slots|
    ensures Near(Revived(p, k, back + {Rid(k, i)}), RollbackDelete(q, i), k, lost)
  {
    var p1, v, r := Revived(MarkDelete(p, i).1, k, back), Revived(p, k, back + {Rid(k, i)}), RollbackDelete(q, i);
    UnmarkCell(q, i);
    RevivedOk(p, k, back + {Rid(k, i)});
    forall j, l ensures InOrder(v, r, j, l) { assert InOrder(p1, q, j, l); }
    forall j: nat ensures NearSlot(v, r, k, lost, j) { NearMarkSlot(p, k, back, i, q, lost, j); }
  }

  lemma NearMarkSlot(p: Page, k: int, back: set<Rid>, i: nat, q: Page, lost: set<Rid>, j: nat)
    requires PageOk(p) && Near(Revived(MarkDelete(p, i).1, k, back), q, k, lost) && i < |q.slots|
    requires PageOk(Revived(p, k, back + {Rid(k, i)})) && PageOk(RollbackDelete(q, i))
    ensures NearSlot(Revived(p, k, back + {Rid(k, i)}), RollbackDelete(q, i), k, lost, j)
  {
    var m, v, r := MarkDelete(p, i).1, Revived(p, k, back + {Rid(k, i)}), RollbackDelete(q, i);
    MarkCell(p, i);
    RevivedCells(m, k, back, j);
    RevivedCells(p, k, back + {Rid(k, i)}, j);
    assert NearSlot(Revived(m, k, back), q, k, lost, j);
    UnmarkedSlot(q, i, j);
    assert j != i ==> CellAt(m, j) == CellAt(p, j);
    if CellAt(q, j) != CellAt(Revived(m, k, back), j) {
      forall l ensures !MarkedBelow(v, j, l) { assert !MarkedBelow(Revived(m, k, back), j, l); }
    }
  }

  lemma UnmarkedSlot(q: Page, i: nat, j: nat)
    requires PageOk(q) && i < |q.slots| && PageOk(RollbackDelete(q, i))
    ensures CellAt(RollbackDelete(q, i), j) ==
      if j == i && CellAt(q, i).Marked? then Live(CellAt(q, i).bytes) else CellAt(q, j)
  {
    UnmarkCell(q, i);
  }
}
