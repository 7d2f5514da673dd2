/** What the slots of a table's pages hold, and what each page operation does to it. */
module HeapCells {
  import opened ByteCodec
  import opened SlottedPage
  import opened SlottedUpdate

  datatype Cell = Empty | Live(bytes: Bytes) | Marked(bytes: Bytes)

  datatype Rid = Rid(page: int, slot: nat)

  ghost function CellAt(p: Page, i: nat): Cell
    requires PageOk(p)
  {
    if !Used(p, i) then Empty
    else
      assert Inside(p, i);
      if p.slots[i].size > 0 then Live(TupleAt(p, i)) else Marked(TupleAt(p, i))
  }

  /** q holds what p holds, but for slot i, which holds c. */
  ghost predicate CellChanged(p: Page, q: Page, i: nat, c: Cell) {
    && PageOk(p) && PageOk(q) && q.size == p.size && CellAt(q, i) == c
    && (forall j: nat {:trigger CellAt(q, j)} :: j != i ==> CellAt(q, j) == CellAt(p, j))
  }

  lemma CellsOf(p: Page, q: Page, i: nat)
    requires PageOk(p) && PageOk(q) && q.size == p.size && OthersSame(p, q, i)
    ensures CellChanged(p, q, i, CellAt(q, i))
  {
    forall j: nat | j != i ensures CellAt(q, j) == CellAt(p, j) {
      assert SameSlot(p, q, j);
    }
  }

  lemma InsertCell(p: Page, t: Bytes)
    requires PageOk(p) && |t| > 0 && InsertTuple(p, t).0.In?
    ensures var (r, q) := InsertTuple(p, t); CellAt(p, r.slot) == Empty && CellChanged(p, q, r.slot, Live(t))
  {
    InsertOk(p, t);
    CellsOf(p, InsertTuple(p, t).1, InsertTuple(p, t).0.slot);
  }

  /** Marking turns a live tuple into a marked one and leaves an empty or marked slot as it is. */
  lemma MarkCell(p: Page, i: nat)
    requires PageOk(p)
    ensures var (ok, q) := MarkDelete(p, i);
      && (ok <==> i < |p.slots| && !CellAt(p, i).Marked?)
      && CellChanged(p, q, i, if CellAt(p, i).Live? then Marked(CellAt(p, i).bytes) else CellAt(p, i))
  {
    var q := MarkDelete(p, i).1;
    assert Used(p, i) ==> Inside(p, i);
    if MarkDelete(p, i).0 {
      FlipOk(p, i);
      CellsOf(p, q, i);
    }
  }

  lemma UnmarkCell(p: Page, i: nat)
    requires PageOk(p) && i < |p.slots|
    ensures CellChanged(p, RollbackDelete(p, i), i,
      if CellAt(p, i).Marked? then Live(CellAt(p, i).bytes) else CellAt(p, i))
  {
    assert Used(p, i) ==> Inside(p, i);
    if p.slots[i].size < 0 {
      FlipOk(p, i);
      CellsOf(p, RollbackDelete(p, i), i);
    }
  }

  lemma RemoveCell(p: Page, i: nat)
    requires PageOk(p) && CellAt(p, i) != Empty
    ensures Inside(p, i) && CellChanged(p, ApplyDelete(p, i), i, Empty)
  {
    assert Inside(p, i);
    ApplyDeleteOk(p, i);
    CellsOf(p, ApplyDelete(p, i), i);
  }

  /** An update fails, changing nothing, or it is safe and replaces one live tuple, or it is unsafe. */
  lemma UpdateCell(p: Page, i: nat, t: Bytes)
    requires PageOk(p)
    ensures i < |p.slots| && p.slots[i].size > 0 ==> Inside(p, i)
    ensures UpdateTuple(p, i, t).0 == NotUpdated ==> UpdateTuple(p, i, t).1 == p
    ensures UpdateTuple(p, i, t).0.Updated? ==> i < |p.slots| && CellAt(p, i) == Live(UpdateTuple(p, i, t).0.before)
    ensures UpdateTuple(p, i, t).0.Updated? && UpdateSafe(p, i, |t|) ==>
      CellChanged(p, UpdateTuple(p, i, t).1, i, if t == [] then Empty else Live(t))
    ensures CellAt(p, i).Live? && |CellAt(p, i).bytes| == |t| ==>
      UpdateTuple(p, i, t).0.Updated? && UpdateSafe(p, i, |t|)
  {
    assert Used(p, i) ==> Inside(p, i);
    if UpdateTuple(p, i, t).0.Updated? {
      UpdateExact(p, i, t);
      if UpdateSafe(p, i, |t|) {
        CellsOf(p, UpdateTuple(p, i, t).1, i);
      }
    }
  }

  // ---- Reading ----

  /** A read finds exactly the live tuples: neither an empty slot nor one marked as deleted. */
  lemma GetFindsLive(p: Page, i: nat, b: Bytes)
    requires PageOk(p)
    ensures GetTuple(p, i) == Some(b) <==> CellAt(p, i) == Live(b)
    ensures GetTuple(p, i) == Nothing <==> !CellAt(p, i).Live?
  {
    assert Used(p, i) ==> Inside(p, i);
  }

  /** What was inserted is read back, and every other slot reads as before. */
  lemma GetAfterInsert(p: Page, t: Bytes, j: nat)
    requires PageOk(p) && t != [] && InsertTuple(p, t).0.In?
    ensures var (r, q) := InsertTuple(p, t);
      PageOk(q) && GetTuple(q, j) == if j == r.slot then Some(t) else GetTuple(p, j)
  {
    InsertCell(p, t);
    var (r, q) := InsertTuple(p, t);
    SameRead(p, q, j);
    GetFindsLive(q, j, t);
  }

  /** A safe update that goes through is read back, and every other slot reads as before. */
  lemma GetAfterUpdate(p: Page, i: nat, t: Bytes, j: nat)
    requires PageOk(p) && t != [] && i < |p.slots| && p.slots[i].size > 0 && Inside(p, i)
    requires UpdateTuple(p, i, t).0.Updated? && UpdateSafe(p, i, |t|)
    ensures GetTuple(p, i) == Some(UpdateTuple(p, i, t).0.before)
    ensures var q := UpdateTuple(p, i, t).1; PageOk(q) && GetTuple(q, j) == if j == i then Some(t) else GetTuple(p, j)
  {
    UpdateCell(p, i, t);
    var q := UpdateTuple(p, i, t).1;
    SameRead(p, q, j);
    GetFindsLive(q, j, t);
    GetFindsLive(p, i, UpdateTuple(p, i, t).0.before);
  }

  /** A tuple marked as deleted is not found; turning the mark back brings its bytes back. */
  lemma GetAfterMark(p: Page, i: nat, j: nat)
    requires PageOk(p)
    ensures var q := MarkDelete(p, i).1; PageOk(q) && GetTuple(q, j) == if j == i then Nothing else GetTuple(p, j)
    ensures GetTuple(p, i).Some? ==>
      var u := RollbackDelete(MarkDelete(p, i).1, i); PageOk(u) && GetTuple(u, j) == GetTuple(p, j)
  {
    var q := MarkDelete(p, i).1;
    MarkCell(p, i);
    SameRead(p, q, j);
    GetFindsLive(q, i, []);
    if GetTuple(p, i).Some? {
      UnmarkCell(q, i);
      var u := RollbackDelete(q, i);
      SameRead(q, u, j);
      GetFindsLive(p, i, GetTuple(p, i).bytes);
      GetFindsLive(u, i, GetTuple(p, i).bytes);
    }
  }

  /** A removed tuple is not found, and every other slot reads as before. */
  lemma GetAfterRemove(p: Page, i: nat, j: nat)
    requires PageOk(p) && Used(p, i) && Inside(p, i)
    ensures var q := ApplyDelete(p, i); PageOk(q) && GetTuple(q, j) == if j == i then Nothing else GetTuple(p, j)
  {
    RemoveCell(p, i);
    SameRead(p, ApplyDelete(p, i), j);
    GetFindsLive(ApplyDelete(p, i), i, []);
  }

  lemma SameRead(p: Page, q: Page, j: nat)
    requires PageOk(p) && PageOk(q)
    ensures CellAt(q, j) == CellAt(p, j) ==> GetTuple(q, j) == GetTuple(p, j)
  {
    var c := CellAt(p, j);
    if c.Live? {
      GetFindsLive(p, j, c.bytes);
      GetFindsLive(q, j, c.bytes);
    } else {
      GetFindsLive(p, j, []);
      GetFindsLive(q, j, []);
    }
  }

  // ---- A table: many pages ----

  type Pages = map<int, Page>

  ghost predicate AllOk(pages: Pages) {
    forall k {:trigger pages[k]} :: k in pages ==> PageOk(pages[k])
  }

  ghost function CellIn(pages: Pages, r: Rid): Cell
    requires AllOk(pages)
  {
    if r.page in pages then CellAt(pages[r.page], r.slot) else Empty
  }

  /** The two tables hold the same, but for r, which holds c in the second. */
  ghost predicate Changed(a: Pages, b: Pages, r: Rid, c: Cell) {
    && AllOk(a) && AllOk(b) && CellIn(b, r) == c
    && (forall s {:trigger CellIn(b, s)} :: s != r ==> CellIn(b, s) == CellIn(a, s))
  }

  ghost predicate SameCells(a: Pages, b: Pages) {
    && AllOk(a) && AllOk(b)
    && (forall s {:trigger CellIn(b, s)} :: CellIn(b, s) == CellIn(a, s))
  }

  lemma PageChanged(pages: Pages, r: Rid, q: Page, c: Cell)
    requires AllOk(pages) && r.page in pages && CellChanged(pages[r.page], q, r.slot, c)
    ensures Changed(pages, pages[r.page := q], r, c)
  {
    var b := pages[r.page := q];
    forall s: Rid | s != r ensures CellIn(b, s) == CellIn(pages, s) {
      if s.page == r.page { assert CellAt(q, s.slot) == CellAt(pages[r.page], s.slot); }
    }
  }

  /** A fresh page holds nothing. */
  lemma NewPageSame(pages: Pages, k: int, size: nat)
    requires AllOk(pages) && k !in pages && size >= 24
    ensures SameCells(pages, pages[k := Page(size, [], [])])
  {
    assert PageOk(Page(size, [], []));
  }
}
