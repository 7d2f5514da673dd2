/** The write set of a transaction: what each record stands for, and undoing them in reverse order. */
module Rollback {
  import opened Config
  import opened ByteCodec
  import opened SlottedPage
  import opened SlottedUpdate
  import opened PageUndo
  import opened HeapCells
  import opened Revival

  /** The write set: what kind of write, where, and for an update the old tuple. */
  datatype Record = InsertRec(rid: Rid) | DeleteRec(rid: Rid) | UpdateRec(rid: Rid, before: Bytes)

  /** A page not yet allocated is as good as an empty one. */
  function Base(pages: Pages, k: int): Page {
    if k in pages then pages[k] else Page(PAGE_SIZE, [], [])
  }

  ghost predicate DidInsert(a: Pages, b: Pages, r: Rid, t: Bytes) {
    && t != [] && InsertTuple(Base(a, r.page), t).0 == In(r.slot)
    && b == a[r.page := InsertTuple(Base(a, r.page), t).1]
  }

  predicate LiveAt(pages: Pages, r: Rid) {
    r.page in pages && r.slot < |pages[r.page].slots| && pages[r.page].slots[r.slot].size > 0
  }

  ghost predicate DidUpdate(a: Pages, b: Pages, r: Rid, before: Bytes, t: Bytes) {
    && LiveAt(a, r) && Inside(a[r.page], r.slot) && t != [] && UpdateSafe(a[r.page], r.slot, |t|)
    && UpdateTuple(a[r.page], r.slot, t).0 == Updated(before)
    && b == a[r.page := UpdateTuple(a[r.page], r.slot, t).1]
  }

  /** The write that record rec stands for: a successful insert, a delete whatever it finds, or a safe update of any
    * length. */
  ghost predicate Did(a: Pages, b: Pages, rec: Record) {
    && AllOk(a)
    && match rec
       case InsertRec(r) => exists t :: DidInsert(a, b, r, t)
       case DeleteRec(r) => r.page in a && b == a[r.page := MarkDelete(a[r.page], r.slot).1]
       case UpdateRec(r, before) => exists t :: DidUpdate(a, b, r, before, t)
  }

  lemma LiveCell(p: Page, i: nat)
    requires PageOk(p) && i < |p.slots| && p.slots[i].size > 0
    ensures Inside(p, i) && CellAt(p, i) == Live(TupleAt(p, i))
  {
    assert Inside(p, i);
  }

  /** What a recorded write does to the contents of the table. */
  lemma DidCells(a: Pages, b: Pages, rec: Record)
    requires Did(a, b, rec)
    ensures AllOk(b) && Changed(a, b, rec.rid, CellIn(b, rec.rid))
    ensures match rec
      case InsertRec(r) => CellIn(a, r) == Empty && CellIn(b, r).Live?
      case DeleteRec(r) => CellIn(b, r) == if CellIn(a, r).Live? then Marked(CellIn(a, r).bytes) else CellIn(a, r)
      case UpdateRec(r, before) => CellIn(a, r) == Live(before) && CellIn(b, r).Live?
  {
    var r := rec.rid;
    match rec
    case InsertRec(_) =>
      var t :| DidInsert(a, b, r, t);
      assert PageOk(Page(PAGE_SIZE, [], []));
      InsertCell(Base(a, r.page), t);
      BaseChanged(a, r, InsertTuple(Base(a, r.page), t).1, Live(t));
    case DeleteRec(_) =>
      MarkCell(a[r.page], r.slot);
      PageChanged(a, r, MarkDelete(a[r.page], r.slot).1, CellAt(MarkDelete(a[r.page], r.slot).1, r.slot));
    case UpdateRec(_, before) =>
      var t :| DidUpdate(a, b, r, before, t);
      UpdateCell(a[r.page], r.slot, t);
      PageChanged(a, r, UpdateTuple(a[r.page], r.slot, t).1, Live(t));
  }

  lemma BaseChanged(a: Pages, r: Rid, q: Page, c: Cell)
    requires AllOk(a) && CellChanged(Base(a, r.page), q, r.slot, c)
    ensures Changed(a, a[r.page := q], r, c)
  {
    if r.page in a {
      PageChanged(a, r, q, c);
    } else {
      var b := a[r.page := Base(a, r.page)];
      NewPageSame(a, r.page, PAGE_SIZE);
      PageChanged(b, r, q, c);
      assert b[r.page := q] == a[r.page := q];
      forall s | s != r ensures CellIn(a[r.page := q], s) == CellIn(a, s) {
        assert CellIn(b[r.page := q], s) == CellIn(b, s);
      }
    }
  }

  /** The table as it stood before each write, and after the last. */
  ghost predicate Traced(trace: seq<Pages>, ws: seq<Record>) {
    |trace| == |ws| + 1 && forall k {:trigger DidAt(trace, ws, k)} :: 0 <= k < |ws| ==> DidAt(trace, ws, k)
  }

  ghost predicate DidAt(trace: seq<Pages>, ws: seq<Record>, k: int)
    requires 0 <= k < |ws| && |trace| == |ws| + 1
  {
    Did(trace[k], trace[k + 1], ws[k])
  }

  lemma TraceExtends(trace: seq<Pages>, ws: seq<Record>, b: Pages, rec: Record)
    requires Traced(trace, ws) && Did(trace[|ws|], b, rec)
    ensures Traced(trace + [b], ws + [rec])
  {
    var t, w := trace + [b], ws + [rec];
    forall k | 0 <= k < |w| ensures DidAt(t, w, k) {
      if k < |ws| { assert DidAt(trace, ws, k); }
    }
  }

  /** No write but a further delete has a marked tuple for its own, and that one changes nothing. */
  lemma MarkedWrite(a: Pages, b: Pages, rec: Record, r: Rid)
    requires Did(a, b, rec) && AllOk(a) && CellIn(a, r).Marked?
    ensures AllOk(b) && CellIn(b, r) == CellIn(a, r) && (rec.rid == r ==> rec.DeleteRec?)
  {
    DidCells(a, b, rec);
    if rec.rid != r { assert CellIn(b, r) == CellIn(a, r); }
  }

  /** A tuple marked at the start stays marked. */
  lemma {:induction false} MarkedStays(trace: seq<Pages>, ws: seq<Record>, r: Rid, m: nat)
    requires Traced(trace, ws) && AllOk(trace[0]) && CellIn(trace[0], r).Marked? && m <= |ws|
    ensures AllOk(trace[m]) && CellIn(trace[m], r) == CellIn(trace[0], r)
  {
    if m > 0 {
      MarkedStays(trace, ws, r, m - 1);
      assert DidAt(trace, ws, m - 1);
      MarkedWrite(trace[m - 1], trace[m], ws[m - 1], r);
    }
  }

  // ---- Undo ----

  /** Page k of b is page k of a but for empty slots; a page that a has not is empty. */
  ghost predicate LikeAt(a: Pages, b: Pages, k: int) {
    (k in a ==> k in b) && (k in b ==> Like(Base(a, k), b[k]))
  }

  /** b is a but for empty slots and empty pages: every tuple is where it was, byte for byte. */
  ghost predicate LikeTable(a: Pages, b: Pages) {
    forall k {:trigger LikeAt(a, b, k)} :: LikeAt(a, b, k)
  }

  /** Tables that are alike hold the same. */
  lemma LikeCells(a: Pages, b: Pages)
    requires AllOk(a) && AllOk(b) && LikeTable(a, b)
    ensures SameCells(a, b)
  {
    forall s ensures CellIn(b, s) == CellIn(a, s) {
      assert LikeAt(a, b, s.page);
      if s.page in b {
        var p, q := Base(a, s.page), b[s.page];
        assert LikeSlot(p, q, s.slot);
        if Used(p, s.slot) {
          assert Inside(p, s.slot);
          LikeTuple(p, q, s.slot);
        }
      }
    }
  }

  /** The assertions that the undo of rec makes hold: the slot exists, and a tuple to be removed lies in the tuple
    * area. */
  predicate UndoReady(pages: Pages, rec: Record) {
    && rec.rid.page in pages && rec.rid.slot < |pages[rec.rid.page].slots|
    && (rec.DeleteRec? || Inside(pages[rec.rid.page], rec.rid.slot))
  }

  function UndoPage(p: Page, i: nat, rec: Record): Page
    requires i < |p.slots| && (rec.DeleteRec? || Inside(p, i))
  {
    match rec
    case DeleteRec(_) => RollbackDelete(p, i)
    case InsertRec(_) => ApplyDelete(p, i)
    case UpdateRec(_, before) => UpdateTuple(p, i, before).1
  }

  /** The undo of one record. */
  function Undo(pages: Pages, rec: Record): Pages
    requires UndoReady(pages, rec)
  {
    pages[rec.rid.page := UndoPage(pages[rec.rid.page], rec.rid.slot, rec)]
  }

  /** For an update: there is room to put the old tuple back. */
  predicate RoomToUndo(pages: Pages, rec: Record) {
    rec.UpdateRec? && LiveAt(pages, rec.rid) ==>
      Room(pages[rec.rid.page]) >= |rec.before| - pages[rec.rid.page].slots[rec.rid.slot].size
  }

  /** The tuple whose mark the undo of rec takes off. */
  function Unmarks(rec: Record): set<Rid> { if rec.DeleteRec? then {rec.rid} else {} }

  /** The table with the marks of the tuples in `back` taken off. */
  function Revive(pages: Pages, back: set<Rid>): Pages {
    map k | k in pages :: Revived(pages[k], k, back)
  }

  lemma ReviveBase(pages: Pages, k: int, back: set<Rid>)
    ensures Base(Revive(pages, back), k) == Revived(Base(pages, k), k, back)
  {
    if k !in pages { assert Base(pages, k).slots == Revived(Base(pages, k), k, back).slots; }
  }

  /** Reviving tuples that are not marked changes nothing. */
  lemma ReviveNone(pages: Pages, back: set<Rid>)
    requires AllOk(pages) && forall r :: r in back ==> !CellIn(pages, r).Marked?
    ensures Revive(pages, back) == pages
  {
    forall k | k in pages ensures Revived(pages[k], k, back) == pages[k] {
      forall i | 0 <= i < |pages[k].slots| ensures Revived(pages[k], k, back).slots[i] == pages[k].slots[i] {
        if Rid(k, i) in back { assert !CellIn(pages, Rid(k, i)).Marked?; }
      }
      assert Revived(pages[k], k, back).slots == pages[k].slots;
    }
  }

  lemma ReviveOk(pages: Pages, back: set<Rid>)
    requires AllOk(pages)
    ensures AllOk(Revive(pages, back))
    ensures forall r :: CellIn(Revive(pages, back), r) == RevivedCell(CellIn(pages, r), r in back)
  {
    var v := Revive(pages, back);
    forall k | k in v ensures PageOk(v[k]) { RevivedOk(pages[k], k, back); }
    forall r ensures CellIn(v, r) == RevivedCell(CellIn(pages, r), r in back) {
      if r.page in v { RevivedCells(pages[r.page], r.page, back, r.slot); }
    }
  }

  lemma UndoRevivedInsert(p: Page, t: Bytes, k: int, back: set<Rid>, q: Page)
    requires PageOk(p) && t != [] && InsertTuple(p, t).0.In? && Like(Revived(InsertTuple(p, t).1, k, back), q)
    ensures var i := InsertTuple(p, t).0.slot;
      && i < |q.slots| && Used(q, i) && Inside(q, i)
      && Like(Revived(p, k, back), ApplyDelete(q, i)) && |ApplyDelete(q, i).slots| == |q.slots|
  {
    RevivedOk(p, k, back);
    RevivedInsert(p, k, back, t);
    UndoInsert(Revived(p, k, back), t, q);
  }

  lemma UndoRevivedUpdate(p: Page, i: nat, t: Bytes, k: int, back: set<Rid>, q: Page)
    requires PageOk(p) && i < |p.slots| && p.slots[i].size > 0 && Inside(p, i) && UpdateSafe(p, i, |t|) && t != []
    requires Like(Revived(Rewritten(p, i, t), k, back), q)
    ensures i < |q.slots| && q.slots[i].size == |t| && Inside(q, i)
    ensures UpdateTuple(q, i, TupleAt(p, i)).0.Updated? <==> Room(q) >= p.slots[i].size - |t|
    ensures UpdateTuple(q, i, TupleAt(p, i)).0.Updated? ==>
      Like(Revived(p, k, back), UpdateTuple(q, i, TupleAt(p, i)).1)
  {
    RevivedOk(p, k, back);
    RevivedUpdate(p, k, back, i, t);
    UndoUpdate(Revived(p, k, back), i, t, q);
  }

  /** The page undo of the last write gives back the page before it, on any page like the one after it; the undo of
    * an update goes through exactly if there is room, and the undo of a delete takes the mark off whoever set it. */
  lemma UndoPageRestores(a: Pages, b: Pages, rec: Record, back: set<Rid>, q: Page)
    requires Did(a, b, rec) && rec.rid.page in b && Like(Revived(b[rec.rid.page], rec.rid.page, back), q)
      && Room(q) >= 0
    requires rec.DeleteRec? ==> rec.rid.slot < |q.slots|
    ensures rec.rid.slot < |q.slots| && (rec.DeleteRec? || (Inside(q, rec.rid.slot) && Used(q, rec.rid.slot)))
    ensures rec.UpdateRec? ==> q.slots[rec.rid.slot].size > 0
    ensures rec.UpdateRec? ==>
      (UpdateTuple(q, rec.rid.slot, rec.before).0.Updated? <==> Room(q) >= |rec.before| - q.slots[rec.rid.slot].size)
    ensures !rec.UpdateRec? || Room(q) >= |rec.before| - q.slots[rec.rid.slot].size ==>
      Like(Revived(Base(a, rec.rid.page), rec.rid.page, back + Unmarks(rec)), UndoPage(q, rec.rid.slot, rec))
    ensures |UndoPage(q, rec.rid.slot, rec).slots| == |q.slots| && UndoPage(q, rec.rid.slot, rec).size == q.size
  {
    var r, k := rec.rid, rec.rid.page;
    assert !rec.DeleteRec? ==> back + Unmarks(rec) == back;
    match rec
    case InsertRec(_) =>
      var t :| DidInsert(a, b, r, t);
      assert PageOk(Page(PAGE_SIZE, [], []));
      UndoRevivedInsert(Base(a, k), t, k, back, q);
    case DeleteRec(_) =>
      RevivedMark(a[k], k, back, r.slot, q);
    case UpdateRec(_, before) =>
      var t :| DidUpdate(a, b, r, before, t);
      UndoRevivedUpdate(a[k], r.slot, t, k, back, q);
  }

  /** Undoing the last write, on any table like the one after it and with room, gives a table like the one before it.
    * The tuples in `back` have been unmarked already. */
  lemma UndoRestores(a: Pages, b: Pages, rec: Record, back: set<Rid>, pages: Pages)
    requires Did(a, b, rec) && LikeTable(Revive(b, back), pages) && AllOk(pages) && RoomToUndo(pages, rec)
    requires rec.DeleteRec? && rec.rid.page in pages ==> rec.rid.slot < |pages[rec.rid.page].slots|
    ensures UndoReady(pages, rec)
    ensures rec.UpdateRec? ==>
      LiveAt(pages, rec.rid) && UpdateTuple(pages[rec.rid.page], rec.rid.slot, rec.before).0.Updated?
    ensures LikeTable(Revive(a, back + Unmarks(rec)), Undo(pages, rec))
  {
    var k := rec.rid.page;
    DidElsewhere(a, b, rec);
    assert LikeAt(Revive(b, back), pages, k);
    UndoPageRestores(a, b, rec, back, pages[k]);
    var after := Undo(pages, rec);
    forall j ensures LikeAt(Revive(a, back + Unmarks(rec)), after, j) {
      assert LikeAt(Revive(b, back), pages, j);
      ReviveBase(a, j, back + Unmarks(rec));
      if j != k {
        ReviveBase(b, j, back);
        RevivedElsewhere(Base(a, j), j, back, rec);
      }
    }
  }

  lemma RevivedElsewhere(p: Page, k: int, back: set<Rid>, rec: Record)
    requires rec.rid.page != k
    ensures Revived(p, k, back + Unmarks(rec)) == Revived(p, k, back)
  {
    assert Revived(p, k, back + Unmarks(rec)).slots == Revived(p, k, back).slots;
  }

  /** A recorded write touches one page. */
  lemma DidElsewhere(a: Pages, b: Pages, rec: Record)
    requires Did(a, b, rec)
    ensures AllOk(a) && rec.rid.page in b && b == a[rec.rid.page := b[rec.rid.page]]
  {
    match rec
    case InsertRec(r) => var t :| DidInsert(a, b, r, t);
    case DeleteRec(_) =>
    case UpdateRec(r, before) => var t :| DidUpdate(a, b, r, before, t);
  }

  ghost predicate SameSlots(a: Pages, b: Pages) {
    a.Keys == b.Keys && forall k :: k in a ==> |b[k].slots| == |a[k].slots|
  }

  // ---- Room for every undo ----

  /** For a shrinking update: the room before it pays for the entries appended to the page later on. */
  predicate RoomKept(trace: seq<Pages>, ws: seq<Record>, k: int)
    requires 0 <= k < |ws| && |trace| == |ws| + 1
  {
    var i := ws[k].rid.page;
    ws[k].UpdateRec? && |Base(trace[k + 1], i).tail| < |Base(trace[k], i).tail| ==>
      Room(Base(trace[k], i)) >= 8 * (|Base(trace[|ws|], i).slots| - |Base(trace[k], i).slots|)
  }

  predicate AllRoomKept(trace: seq<Pages>, ws: seq<Record>)
    requires |trace| == |ws| + 1
  {
    forall k {:trigger RoomKept(trace, ws, k)} :: 0 <= k < |ws| ==> RoomKept(trace, ws, k)
  }

  /** As long as every later write has been undone, there is room for the next undo exactly if it was kept. */
  lemma RoomForUndo(trace: seq<Pages>, ws: seq<Record>, k: nat, back: set<Rid>, pages: Pages)
    requires Traced(trace, ws) && k < |ws|
    requires AllOk(pages) && LikeTable(Revive(trace[k + 1], back), pages) && SameSlots(trace[|ws|], pages)
    ensures RoomToUndo(pages, ws[k]) <==> RoomKept(trace, ws, k)
  {
    var rec, i := ws[k], ws[k].rid.page;
    assert DidAt(trace, ws, k) && LikeAt(Revive(trace[k + 1], back), pages, i);
    if rec.UpdateRec? {
      var a, b, r := trace[k], trace[k + 1], rec.rid;
      var t :| DidUpdate(a, b, r, rec.before, t);
      ReviveBase(b, i, back);
      LikeRoom(Revived(b[i], i, back), pages[i]);
      UndoPageRestores(a, b, rec, back, pages[i]);
      assert LikeSlot(Revived(b[i], i, back), pages[i], r.slot);
      assert |pages[i].slots| == |trace[|ws|][i].slots|;
    }
  }

  // ---- A recorded delete that found nothing live ----

  datatype Outcome = Trips | Done(pages: Pages)

  /** RollbackDelete with its assertion that the slot exists. */
  function UnmarkOutcome(pages: Pages, r: Rid): Outcome
    requires r.page in pages
  {
    if r.slot >= |pages[r.page].slots| then Trips else Done(pages[r.page := RollbackDelete(pages[r.page], r.slot)])
  }

  /** A delete is recorded whatever it finds, so its undo is right exactly when the slot exists and was not already
    * marked: past the directory it trips an assertion, and a tuple marked by another transaction it brings back to
    * life. */
  lemma DeleteUndoExact(pages: Pages, r: Rid)
    requires AllOk(pages) && r.page in pages
    ensures var o := UnmarkOutcome(pages[r.page := MarkDelete(pages[r.page], r.slot).1], r);
      (o.Done? && SameCells(pages, o.pages)) <==> r.slot < |pages[r.page].slots| && !CellIn(pages, r).Marked?
  {
    var p := pages[r.page];
    var q := MarkDelete(p, r.slot).1;
    MarkCell(p, r.slot);
    if r.slot < |p.slots| {
      UnmarkCell(q, r.slot);
      var u := RollbackDelete(q, r.slot);
      var c := CellAt(u, r.slot);
      assert CellChanged(p, u, r.slot, c);
      PageChanged(pages, r, u, c);
      var b := pages[r.page := u];
      assert pages[r.page := q][r.page := u] == b;
      assert CellIn(b, r) == c;
      forall s ensures s != r ==> CellIn(b, s) == CellIn(pages, s) { }
    }
  }

  /** A page whose only tuple leaves room for 4 bytes. The tuple shrinks to one byte, a new slot is filled and
    * emptied again, and the old tuple no longer fits: the undo of the update does not go through. */
  lemma ShrinkThenInsertExample(before: Bytes)
    requires |before| == PAGE_SIZE - 36
    ensures var p := InsertTuple(Page(PAGE_SIZE, [], []), before).1;
      && PageOk(p) && LiveAt(map[0 := p], Rid(0, 0)) && Inside(p, 0) && UpdateSafe(p, 0, 1)
      && var p1 := UpdateTuple(p, 0, [1]).1;
         && UpdateTuple(p, 0, [1]).0 == Updated(before) && InsertTuple(p1, [2]).0 == In(1)
         && var p2 := InsertTuple(p1, [2]).1;
            && |p2.slots| == 2 && Inside(p2, 1)
            && var p3 := ApplyDelete(p2, 1);
               Inside(p3, 0) && UpdateTuple(p3, 0, before).0 == NotUpdated
  {
    var p0 := Page(PAGE_SIZE, [], []);
    assert PageOk(p0);
    InsertOk(p0, before);
    var p := InsertTuple(p0, before).1;
    assert p.slots == [Slot(36, PAGE_SIZE - 36)];
    UpdateExact(p, 0, [1]);
    assert forall j :: !MarkedBelow(p, 0, j);
    var p1 := UpdateTuple(p, 0, [1]).1;
    assert p1.slots == [Slot(PAGE_SIZE - 1, 1)];
    InsertOk(p1, [2]);
    var p2 := InsertTuple(p1, [2]).1;
    assert p2.slots == [Slot(PAGE_SIZE - 1, 1), Slot(PAGE_SIZE - 2, 1)];
    ApplyDeleteOk(p2, 1);
    var p3 := ApplyDelete(p2, 1);
    assert p3.slots[0] == Slot(PAGE_SIZE - 1, 1) && |p3.slots| == 2 && |p3.tail| == 1;
  }
}
