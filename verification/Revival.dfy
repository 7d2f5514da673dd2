/** A page on which some of the tuples marked as deleted are live again. */
module Revival {
  import opened ByteCodec
  import opened SlottedPage
  import opened SlottedUpdate
  import opened PageUndo
  import opened HeapCells

  function RevivedSlot(s: Slot, back: bool): Slot {
    if back && s.size < 0 then s.(size := -s.size) else s
  }

  /** Page k with the marks of the tuples in `back` taken off. */
  function Revived(p: Page, k: int, back: set<Rid>): (q: Page)
    ensures |q.slots| == |p.slots| && q.size == p.size && q.tail == p.tail
    ensures forall i :: 0 <= i < |p.slots| ==> q.slots[i] == RevivedSlot(p.slots[i], Rid(k, i) in back)
  {
    p.(slots := seq(|p.slots|, i requires 0 <= i < |p.slots| => RevivedSlot(p.slots[i], Rid(k, i) in back)))
  }

  function RevivedCell(c: Cell, back: bool): Cell {
    if back && c.Marked? then Live(c.bytes) else c
  }

  lemma RevivedOk(p: Page, k: int, back: set<Rid>)
    requires PageOk(p)
    ensures PageOk(Revived(p, k, back))
  {
    var q := Revived(p, k, back);
    forall i | Used(q, i) ensures Inside(q, i) { assert Inside(p, i); }
    forall i, j | Used(q, i) && Used(q, j) && i != j ensures Apart(q, i, j) { assert Apart(p, i, j); }
    forall x | Free(q) <= x < q.size ensures Covered(q, x) {
      assert Covered(p, x);
      var i :| Has(p, i, x);
      assert Has(q, i, x);
    }
  }

  /** Only the marks of `back` are gone; every byte is where it was. */
  lemma RevivedCells(p: Page, k: int, back: set<Rid>, i: nat)
    requires PageOk(p) && PageOk(Revived(p, k, back))
    ensures CellAt(Revived(p, k, back), i) == RevivedCell(CellAt(p, i), Rid(k, i) in back)
  {
    if Used(p, i) { assert Inside(p, i) && Inside(Revived(p, k, back), i); }
  }

  /** Inserting does not look at marks. */
  lemma RevivedInsert(p: Page, k: int, back: set<Rid>, t: Bytes)
    ensures var (r, q) := InsertTuple(p, t); InsertTuple(Revived(p, k, back), t) == (r, Revived(q, k, back))
  {
    var v := Revived(p, k, back);
    assert FirstEmpty(v.slots) == FirstEmpty(p.slots);
    var (r, q) := InsertTuple(p, t);
    assert InsertTuple(v, t).1.slots == Revived(q, k, back).slots;
  }

  /** A safe update moves the marked tuples as if they were live. */
  lemma RevivedUpdate(p: Page, k: int, back: set<Rid>, i: nat, t: Bytes)
    requires PageOk(p) && i < |p.slots| && p.slots[i].size > 0 && Inside(p, i) && UpdateSafe(p, i, |t|)
    ensures var v := Revived(p, k, back);
      && v.slots[i] == p.slots[i] && Inside(v, i) && TupleAt(v, i) == TupleAt(p, i) && UpdateSafe(v, i, |t|)
      && Rewritten(v, i, t) == Revived(Rewritten(p, i, t), k, back)
  {
    var v := Revived(p, k, back);
    forall j | MarkedBelow(v, i, j) ensures MarkedBelow(p, i, j) { }
    forall j: nat | j < |p.slots|
      ensures Shifted(v.slots, i, |t|, j) == RevivedSlot(Shifted(p.slots, i, |t|, j), Rid(k, j) in back)
    {
      if j != i && Used(p, j) { ShiftedIs(p, i, |t|, j); }
    }
    assert Rewritten(v, i, t).slots == Revived(Rewritten(p, i, t), k, back).slots;
  }

  /** Undoing a delete takes the mark off, whoever set it. */
  lemma RevivedMark(p: Page, k: int, back: set<Rid>, i: nat, q: Page)
    requires Like(Revived(MarkDelete(p, i).1, k, back), q) && i < |q.slots|
    ensures Like(Revived(p, k, back + {Rid(k, i)}), RollbackDelete(q, i))
  {
    var p1, v, r := Revived(MarkDelete(p, i).1, k, back), Revived(p, k, back + {Rid(k, i)}), RollbackDelete(q, i);
    assert LikeSlot(p1, q, i);
    forall j ensures LikeSlot(v, r, j) { assert LikeSlot(p1, q, j); }
  }
}
