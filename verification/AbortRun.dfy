/** Abort as a whole: the write set undone from the back, whether or not every undo goes through. */
module AbortRun {
  import opened Config
  import opened ByteCodec
  import opened SlottedPage
  import opened SlottedUpdate
  import opened HeapCells
  import opened Revival
  import opened NearPage
  import opened Rollback

  // ---- The abort loop as a value ----

  /** Tripped: an assertion failed. `refused` are the records of the updates whose undo did not go through. */
  datatype RolledBack = Tripped | RolledBack(pages: Pages, refused: set<nat>)

  predicate PageRefuses(q: Page, rec: Record)
    requires rec.rid.slot < |q.slots| && (rec.DeleteRec? || Inside(q, rec.rid.slot))
  {
    rec.UpdateRec? && UpdateTuple(q, rec.rid.slot, rec.before).0 == NotUpdated
  }

  predicate Refuses(pages: Pages, rec: Record)
    requires UndoReady(pages, rec)
  {
    PageRefuses(pages[rec.rid.page], rec)
  }

  /** The refused records once the undo of record n was tried. */
  function Refused(refused: set<nat>, n: nat, now: bool): set<nat> { if now then refused + {n} else refused }

  /** The first n records undone, the last of them first. */
  function UndoAll(pages: Pages, ws: seq<Record>, n: nat, refused: set<nat>): RolledBack
    requires n <= |ws|
  {
    if n == 0 then RolledBack(pages, refused)
    else if !UndoReady(pages, ws[n - 1]) then Tripped
    else UndoAll(Undo(pages, ws[n - 1]), ws, n - 1, Refused(refused, n - 1, Refuses(pages, ws[n - 1])))
  }

  // ---- The tuples that are lost ----

  /** Record k is the first from n on that inserts or updates its tuple. */
  predicate FirstWrite(ws: seq<Record>, n: nat, k: nat)
    requires k < |ws|
  {
    forall j :: n <= j < k && ws[j].rid == ws[k].rid ==> ws[j].DeleteRec?
  }

  /** The tuples whose latest undo was refused, the records from n on having been undone. */
  function Lost(ws: seq<Record>, n: nat, refused: set<nat>): set<Rid> {
    set k | k in refused && k < |ws| && FirstWrite(ws, n, k) :: ws[k].rid
  }

  /** The undo of an insert or an update decides anew about its tuple. */
  function LostAfter(lost: set<Rid>, rec: Record, now: bool): set<Rid> {
    if rec.DeleteRec? then lost else if now then lost + {rec.rid} else lost - {rec.rid}
  }

  lemma LostStep(ws: seq<Record>, n: nat, refused: set<nat>, now: bool)
    requires n < |ws| && (forall k :: k in refused ==> n < k < |ws|) && (now ==> ws[n].UpdateRec?)
    ensures Lost(ws, n, Refused(refused, n, now)) == LostAfter(Lost(ws, n + 1, refused), ws[n], now)
  {
    var rec := ws[n];
    var was, later := Lost(ws, n + 1, refused), Lost(ws, n, Refused(refused, n, now));
    forall k | k in refused
      ensures FirstWrite(ws, n, k) <==> FirstWrite(ws, n + 1, k) && (rec.DeleteRec? || ws[k].rid != rec.rid)
    {
      if ws[n].rid == ws[k].rid && !rec.DeleteRec? { assert !FirstWrite(ws, n, k); }
    }
    assert FirstWrite(ws, n, n);
    forall r ensures r in later <==> r in LostAfter(was, rec, now) {
      if r in was {
        var k :| k in refused && k < |ws| && FirstWrite(ws, n + 1, k) && ws[k].rid == r;
        assert FirstWrite(ws, n, k) ==> r in later;
      }
    }
  }

  // ---- The table while it is being undone ----

  ghost predicate NearAt(a: Pages, b: Pages, lost: set<Rid>, k: int) {
    (k in a ==> k in b) && (k in b ==> Near(Base(a, k), b[k], k, lost))
  }

  /** b is a but for the bytes of the tuples in `lost`, empty slots and empty pages. */
  ghost predicate NearTable(a: Pages, b: Pages, lost: set<Rid>) {
    (forall r :: r in lost ==> r.page in b) && forall k {:trigger NearAt(a, b, lost, k)} :: NearAt(a, b, lost, k)
  }

  lemma NearElsewhere(p: Page, q: Page, k: int, lost: set<Rid>, rec: Record, now: bool)
    requires Near(p, q, k, lost) && rec.rid.page != k
    ensures Near(p, q, k, LostAfter(lost, rec, now))
  {
    forall i: nat ensures NearSlot(p, q, k, LostAfter(lost, rec, now), i) { assert NearSlot(p, q, k, lost, i); }
  }

  /** One undo on a page that is near the one after the write: it keeps the page well formed and near the one before. */
  ghost predicate UndoneNear(p: Page, q: Page, rec: Record, back: set<Rid>, lost: set<Rid>) {
    && rec.rid.slot < |q.slots| && (rec.DeleteRec? || Inside(q, rec.rid.slot))
    && var r := UndoPage(q, rec.rid.slot, rec);
       && |r.slots| == |q.slots| && r.size == q.size
       && Near(Revived(p, rec.rid.page, back + Unmarks(rec)), r, rec.rid.page,
            LostAfter(lost, rec, PageRefuses(q, rec)))
  }

  lemma NearRevivedInsert(p: Page, t: Bytes, k: int, back: set<Rid>, q: Page, lost: set<Rid>)
    requires PageOk(p) && t != [] && InsertTuple(p, t).0.In? && Near(Revived(InsertTuple(p, t).1, k, back), q, k, lost)
    ensures var i := InsertTuple(p, t).0.slot;
      Used(q, i) && Inside(q, i) && Near(Revived(p, k, back), ApplyDelete(q, i), k, lost - {Rid(k, i)})
  {
    RevivedOk(p, k, back);
    RevivedInsert(p, k, back, t);
    NearInsert(Revived(p, k, back), t, q, k, lost);
  }

  lemma NearRevivedUpdate(p: Page, i: nat, t: Bytes, k: int, back: set<Rid>, q: Page, lost: set<Rid>)
    requires PageOk(p) && i < |p.slots| && p.slots[i].size > 0 && Inside(p, i) && UpdateSafe(p, i, |t|) && t != []
    requires Near(Revived(Rewritten(p, i, t), k, back), q, k, lost)
    ensures i < |q.slots| && q.slots[i].size > 0 && Inside(q, i)
    ensures var (u, r) := UpdateTuple(q, i, TupleAt(p, i));
      if u.Updated? then Near(Revived(p, k, back), r, k, lost - {Rid(k, i)})
      else r == q && Near(Revived(p, k, back), q, k, lost + {Rid(k, i)})
  {
    RevivedOk(p, k, back);
    RevivedUpdate(p, k, back, i, t);
    NearUpdate(Revived(p, k, back), i, t, q, k, lost);
  }

  lemma NearUndoInsert(p: Page, t: Bytes, q: Page, rec: Record, back: set<Rid>, lost: set<Rid>)
    requires PageOk(p) && t != [] && rec.InsertRec? && InsertTuple(p, t).0 == In(rec.rid.slot)
    requires Near(Revived(InsertTuple(p, t).1, rec.rid.page, back), q, rec.rid.page, lost)
    ensures UndoneNear(p, q, rec, back, lost)
  {
    assert back + Unmarks(rec) == back && rec.rid == Rid(rec.rid.page, rec.rid.slot);
    NearRevivedInsert(p, t, rec.rid.page, back, q, lost);
  }

  lemma NearUndoUpdate(p: Page, t: Bytes, q: Page, rec: Record, back: set<Rid>, lost: set<Rid>)
    requires rec.UpdateRec? && rec.rid.slot < |p.slots| && p.slots[rec.rid.slot].size > 0 && Inside(p, rec.rid.slot)
    requires PageOk(p) && t != [] && UpdateSafe(p, rec.rid.slot, |t|) && rec.before == TupleAt(p, rec.rid.slot)
    requires Near(Revived(Rewritten(p, rec.rid.slot, t), rec.rid.page, back), q, rec.rid.page, lost)
    ensures UndoneNear(p, q, rec, back, lost)
  {
    var i, k := rec.rid.slot, rec.rid.page;
    assert back + Unmarks(rec) == back && rec.rid == Rid(k, i);
    NearRevivedUpdate(p, i, t, k, back, q, lost);
    var (u, r) := UpdateTuple(q, i, rec.before);
    assert UndoPage(q, i, rec) == r && |r.slots| == |q.slots| && r.size == q.size;
    assert LostAfter(lost, rec, PageRefuses(q, rec)) == if u.Updated? then lost - {Rid(k, i)} else lost + {Rid(k, i)};
  }

  lemma NearUndoDelete(p: Page, q: Page, rec: Record, back: set<Rid>, lost: set<Rid>)
    requires PageOk(p) && rec.DeleteRec? && rec.rid.slot < |q.slots|
    requires Near(Revived(MarkDelete(p, rec.rid.slot).1, rec.rid.page, back), q, rec.rid.page, lost)
    ensures UndoneNear(p, q, rec, back, lost)
  {
    NearMark(p, rec.rid.page, back, rec.rid.slot, q, lost);
  }

  lemma NearUndo(a: Pages, b: Pages, rec: Record, back: set<Rid>, q: Page, lost: set<Rid>)
    requires Did(a, b, rec) && rec.rid.page in b && (rec.DeleteRec? ==> rec.rid.slot < |q.slots|)
    requires Near(Revived(b[rec.rid.page], rec.rid.page, back), q, rec.rid.page, lost)
    ensures UndoneNear(Base(a, rec.rid.page), q, rec, back, lost)
  {
    var r := rec.rid;
    assert PageOk(Page(PAGE_SIZE, [], []));
    match rec
    case InsertRec(_) =>
      var t :| DidInsert(a, b, r, t);
      NearUndoInsert(Base(a, r.page), t, q, rec, back, lost);
    case DeleteRec(_) =>
      NearUndoDelete(a[r.page], q, rec, back, lost);
    case UpdateRec(_, before) =>
      var t :| DidUpdate(a, b, r, before, t);
      NearUndoUpdate(a[r.page], t, q, rec, back, lost);
  }

  /** The undo of rec leaves another page j alone. */
  lemma NearUndoOther(a: Pages, b: Pages, rec: Record, back: set<Rid>, pages: Pages, lost: set<Rid>, now: bool, j: int)
    requires j != rec.rid.page && (j in a <==> j in b) && Base(a, j) == Base(b, j)
    requires NearAt(Revive(b, back), pages, lost, j)
    ensures NearAt(Revive(a, back + Unmarks(rec)), pages, LostAfter(lost, rec, now), j)
  {
    ReviveBase(a, j, back + Unmarks(rec));
    ReviveBase(b, j, back);
    RevivedElsewhere(Base(a, j), j, back, rec);
    if j in pages { NearElsewhere(Base(Revive(b, back), j), pages[j], j, lost, rec, now); }
  }

  lemma NearUndoHere(a: Pages, b: Pages, rec: Record, back: set<Rid>, pages: Pages, lost: set<Rid>)
    requires Did(a, b, rec) && rec.rid.page in pages && NearAt(Revive(b, back), pages, lost, rec.rid.page)
    requires rec.DeleteRec? ==> rec.rid.slot < |pages[rec.rid.page].slots|
    ensures UndoReady(pages, rec) && SameSlots(pages, Undo(pages, rec))
    ensures var now := Refuses(pages, rec);
      NearAt(Revive(a, back + Unmarks(rec)), Undo(pages, rec), LostAfter(lost, rec, now), rec.rid.page)
  {
    var k := rec.rid.page;
    DidElsewhere(a, b, rec);
    ReviveBase(b, k, back);
    NearUndo(a, b, rec, back, pages[k], lost);
    ReviveBase(a, k, back + Unmarks(rec));
  }

  lemma NearUndoTable(a: Pages, b: Pages, rec: Record, back: set<Rid>, pages: Pages, lost: set<Rid>)
    requires Did(a, b, rec) && NearTable(Revive(b, back), pages, lost) && rec.rid.page in pages
    requires rec.DeleteRec? ==> rec.rid.slot < |pages[rec.rid.page].slots|
    ensures UndoReady(pages, rec) && SameSlots(pages, Undo(pages, rec))
    ensures NearTable(Revive(a, back + Unmarks(rec)), Undo(pages, rec), LostAfter(lost, rec, Refuses(pages, rec)))
  {
    assert NearAt(Revive(b, back), pages, lost, rec.rid.page);
    NearUndoHere(a, b, rec, back, pages, lost);
    DidElsewhere(a, b, rec);
    var after, now := Undo(pages, rec), Refuses(pages, rec);
    forall j ensures NearAt(Revive(a, back + Unmarks(rec)), after, LostAfter(lost, rec, now), j) {
      if j != rec.rid.page {
        assert NearAt(Revive(b, back), pages, lost, j);
        NearUndoOther(a, b, rec, back, pages, lost, now, j);
      }
    }
  }

  // ---- What every turn of the loop keeps ----

  /** The tuples deleted by the writes from n on. */
  function DeletedFrom(ws: seq<Record>, n: nat): set<Rid> {
    set j | n <= j < |ws| && ws[j].DeleteRec? :: ws[j].rid
  }

  lemma DeletedFromStep(ws: seq<Record>, n: nat)
    requires n < |ws|
    ensures DeletedFrom(ws, n) == DeletedFrom(ws, n + 1) + Unmarks(ws[n])
  {
  }

  /** A recorded delete names a slot that its page has when the abort begins. */
  predicate SlotThere(pages: Pages, rec: Record) {
    rec.DeleteRec? && rec.rid.page in pages ==> rec.rid.slot < |pages[rec.rid.page].slots|
  }

  /** The writes from n on have been undone, and the table is near the one before write n. */
  ghost predicate RollsNear(trace: seq<Pages>, ws: seq<Record>, n: nat, pages: Pages, refused: set<nat>)
    requires n <= |ws| && |trace| == |ws| + 1
  {
    && AllOk(pages) && SameSlots(trace[|ws|], pages)
    && (forall k :: k in refused ==> n <= k < |ws| && ws[k].UpdateRec?)
    && NearTable(Revive(trace[n], DeletedFrom(ws, n)), pages, Lost(ws, n, refused))
  }

  /** As long as nothing was refused it is like that table, and nothing was refused exactly if room was kept. */
  ghost predicate RollsLike(trace: seq<Pages>, ws: seq<Record>, n: nat, pages: Pages, refused: set<nat>)
    requires n <= |ws| && |trace| == |ws| + 1
  {
    && (refused == {} ==> LikeTable(Revive(trace[n], DeletedFrom(ws, n)), pages))
    && (refused == {} <==> forall j {:trigger RoomKept(trace, ws, j)} :: n <= j < |ws| ==> RoomKept(trace, ws, j))
  }

  ghost predicate Rolling(trace: seq<Pages>, ws: seq<Record>, n: nat, pages: Pages, refused: set<nat>)
    requires n <= |ws| && |trace| == |ws| + 1
  {
    RollsNear(trace, ws, n, pages, refused) && RollsLike(trace, ws, n, pages, refused)
  }

  lemma RollingStart(trace: seq<Pages>, ws: seq<Record>)
    requires |trace| == |ws| + 1 && AllOk(trace[|ws|])
      && forall k :: k in trace[|ws|] ==> trace[|ws|][k].size == PAGE_SIZE
    ensures Rolling(trace, ws, |ws|, trace[|ws|], {})
  {
    var at := trace[|ws|];
    ReviveNone(at, DeletedFrom(ws, |ws|));
    assert Lost(ws, |ws|, {}) == {};
    forall k ensures LikeAt(at, at, k) && NearAt(at, at, {}, k) {
      if k in at { LikeNear(at[k], at[k], k); }
    }
  }

  /** A refusal is recorded exactly if there is no room. */
  lemma RefusesExactly(trace: seq<Pages>, ws: seq<Record>, n: nat, pages: Pages)
    requires Traced(trace, ws) && n < |ws| && Rolling(trace, ws, n + 1, pages, {}) && UndoReady(pages, ws[n])
    ensures !Refuses(pages, ws[n]) <==> RoomKept(trace, ws, n)
    ensures !Refuses(pages, ws[n]) ==> LikeTable(Revive(trace[n], DeletedFrom(ws, n)), Undo(pages, ws[n]))
  {
    var back, rec := DeletedFrom(ws, n + 1), ws[n];
    assert DidAt(trace, ws, n);
    RoomForUndo(trace, ws, n, back, pages);
    DeletedFromStep(ws, n);
    if rec.UpdateRec? {
      assert LikeAt(Revive(trace[n + 1], back), pages, rec.rid.page);
      DidElsewhere(trace[n], trace[n + 1], rec);
      UndoPageRestores(trace[n], trace[n + 1], rec, back, pages[rec.rid.page]);
    }
    if RoomKept(trace, ws, n) { UndoRestores(trace[n], trace[n + 1], rec, back, pages); }
  }

  /** A turn trips exactly if it undoes a delete whose slot is not there. */
  lemma RollingReady(trace: seq<Pages>, ws: seq<Record>, n: nat, pages: Pages, refused: set<nat>)
    requires Traced(trace, ws) && n < |ws| && RollsNear(trace, ws, n + 1, pages, refused)
    ensures Did(trace[n], trace[n + 1], ws[n]) && ws[n].rid.page in pages
    ensures SlotThere(trace[|ws|], ws[n]) <==> (ws[n].DeleteRec? ==> ws[n].rid.slot < |pages[ws[n].rid.page].slots|)
  {
    var back, rec, k := DeletedFrom(ws, n + 1), ws[n], ws[n].rid.page;
    assert DidAt(trace, ws, n);
    DidElsewhere(trace[n], trace[n + 1], rec);
    assert NearAt(Revive(trace[n + 1], back), pages, Lost(ws, n + 1, refused), k);
    assert |pages[k].slots| == |trace[|ws|][k].slots|;
  }

  /** One turn. */
  lemma RollingNear(trace: seq<Pages>, ws: seq<Record>, n: nat, pages: Pages, refused: set<nat>)
    requires Traced(trace, ws) && n < |ws| && RollsNear(trace, ws, n + 1, pages, refused)
    ensures UndoReady(pages, ws[n]) <==> SlotThere(trace[|ws|], ws[n])
    ensures UndoReady(pages, ws[n]) ==>
      RollsNear(trace, ws, n, Undo(pages, ws[n]), Refused(refused, n, Refuses(pages, ws[n])))
  {
    var back, rec, lost := DeletedFrom(ws, n + 1), ws[n], Lost(ws, n + 1, refused);
    RollingReady(trace, ws, n, pages, refused);
    if SlotThere(trace[|ws|], rec) {
      NearUndoTable(trace[n], trace[n + 1], rec, back, pages, lost);
      DeletedFromStep(ws, n);
      var now := Refuses(pages, rec);
      LostStep(ws, n, refused, now);
      NearTableOk(Revive(trace[n], DeletedFrom(ws, n)), Undo(pages, rec), LostAfter(lost, rec, now));
    }
  }

  lemma RollingLike(trace: seq<Pages>, ws: seq<Record>, n: nat, pages: Pages, refused: set<nat>)
    requires Traced(trace, ws) && n < |ws| && Rolling(trace, ws, n + 1, pages, refused) && UndoReady(pages, ws[n])
    ensures RollsLike(trace, ws, n, Undo(pages, ws[n]), Refused(refused, n, Refuses(pages, ws[n])))
  {
    if refused == {} { RefusesExactly(trace, ws, n, pages); }
    RoomStep(trace, ws, n);
  }

  lemma RollingStep(trace: seq<Pages>, ws: seq<Record>, n: nat, pages: Pages, refused: set<nat>)
    requires Traced(trace, ws) && n < |ws| && Rolling(trace, ws, n + 1, pages, refused)
    ensures UndoReady(pages, ws[n]) <==> SlotThere(trace[|ws|], ws[n])
    ensures UndoReady(pages, ws[n]) ==>
      Rolling(trace, ws, n, Undo(pages, ws[n]), Refused(refused, n, Refuses(pages, ws[n])))
  {
    RollingNear(trace, ws, n, pages, refused);
    if UndoReady(pages, ws[n]) { RollingLike(trace, ws, n, pages, refused); }
  }

  lemma NearTableOk(a: Pages, b: Pages, lost: set<Rid>)
    requires NearTable(a, b, lost)
    ensures AllOk(b)
  {
    forall k | k in b ensures PageOk(b[k]) { assert NearAt(a, b, lost, k); }
  }

  lemma RoomStep(trace: seq<Pages>, ws: seq<Record>, n: nat)
    requires |trace| == |ws| + 1 && n < |ws|
    ensures (forall j {:trigger RoomKept(trace, ws, j)} :: n <= j < |ws| ==> RoomKept(trace, ws, j)) <==>
      RoomKept(trace, ws, n) && forall j {:trigger RoomKept(trace, ws, j)} :: n + 1 <= j < |ws| ==>
        RoomKept(trace, ws, j)
  {
  }

  // ---- The outcome ----

  predicate SlotsThere(pages: Pages, ws: seq<Record>, n: nat)
    requires n <= |ws|
  {
    forall k :: 0 <= k < n ==> SlotThere(pages, ws[k])
  }

  /** What the table holds after the abort: a tuple whose first update could not be undone has other bytes; any other
    * tuple has its old ones, but that one marked at the start and deleted again has come back to life. */
  ghost predicate AbortLeaves(at: Pages, ws: seq<Record>, pages: Pages, refused: set<nat>) {
    && AllOk(at) && AllOk(pages)
    && forall r {:trigger CellIn(pages, r)} ::
         if r in Lost(ws, 0, refused)
         then CellIn(at, r).Live? && CellIn(pages, r).Live? && CellIn(pages, r) != CellIn(at, r)
         else CellIn(pages, r) == RevivedCell(CellIn(at, r), r in DeletedFrom(ws, 0))
  }

  lemma NearCells(a: Pages, b: Pages, lost: set<Rid>, r: Rid)
    requires AllOk(a) && AllOk(b) && NearTable(a, b, lost)
    ensures if r in lost then CellIn(b, r) != CellIn(a, r) && CellIn(a, r).Live? && CellIn(b, r).Live?
            else CellIn(b, r) == CellIn(a, r)
  {
    assert NearAt(a, b, lost, r.page);
    if r.page in b {
      assert NearSlot(Base(a, r.page), b[r.page], r.page, lost, r.slot);
    }
  }

  /** None of the deleted tuples was marked when the transaction began. */
  ghost predicate NoneMarked(at: Pages, ws: seq<Record>)
    requires AllOk(at)
  {
    forall r :: r in DeletedFrom(ws, 0) ==> !CellIn(at, r).Marked?
  }

  /** A lost tuple was live at the start. */
  lemma LostWasLive(trace: seq<Pages>, ws: seq<Record>, refused: set<nat>, r: Rid)
    requires Traced(trace, ws) && AllOk(trace[0]) && r in Lost(ws, 0, refused)
    requires forall k :: k in refused ==> 0 <= k < |ws| && ws[k].UpdateRec?
    ensures !CellIn(trace[0], r).Marked?
  {
    var k :| k in refused && k < |ws| && FirstWrite(ws, 0, k) && ws[k].rid == r;
    assert DidAt(trace, ws, k);
    DidCells(trace[k], trace[k + 1], ws[k]);
    if CellIn(trace[0], r).Marked? { MarkedStays(trace, ws, r, k); }
  }

  lemma EndCells(trace: seq<Pages>, ws: seq<Record>, pages: Pages, refused: set<nat>)
    requires Traced(trace, ws) && AllOk(trace[0]) && Rolling(trace, ws, 0, pages, refused)
    ensures AbortLeaves(trace[0], ws, pages, refused)
  {
    var at, back, lost := trace[0], DeletedFrom(ws, 0), Lost(ws, 0, refused);
    ReviveOk(at, back);
    forall r
      ensures if r in lost then CellIn(at, r).Live? && CellIn(pages, r).Live? && CellIn(pages, r) != CellIn(at, r)
              else CellIn(pages, r) == RevivedCell(CellIn(at, r), r in back)
    {
      NearCells(Revive(at, back), pages, lost, r);
      if r in lost { LostWasLive(trace, ws, refused, r); }
    }
  }

  /** Restored: nothing is lost and nothing has come back to life. */
  lemma RestoredExactly(at: Pages, ws: seq<Record>, pages: Pages, refused: set<nat>)
    requires AbortLeaves(at, ws, pages, refused)
    ensures SameCells(at, pages) <==> NoneMarked(at, ws) && Lost(ws, 0, refused) == {}
  {
    if r :| r in Lost(ws, 0, refused) {
      assert CellIn(pages, r) != CellIn(at, r);
    } else if r :| r in DeletedFrom(ws, 0) && CellIn(at, r).Marked? {
      assert CellIn(pages, r).Live?;
    }
  }

  /** The loop is through. */
  lemma RollingEnd(trace: seq<Pages>, ws: seq<Record>, pages: Pages, refused: set<nat>)
    requires Traced(trace, ws) && AllOk(trace[0]) && Rolling(trace, ws, 0, pages, refused)
    ensures AbortLeaves(trace[0], ws, pages, refused) && (refused == {} <==> AllRoomKept(trace, ws))
    ensures SameCells(trace[0], pages) <==> NoneMarked(trace[0], ws) && Lost(ws, 0, refused) == {}
    ensures refused == {} && NoneMarked(trace[0], ws) ==> LikeTable(trace[0], pages)
  {
    EndCells(trace, ws, pages, refused);
    RestoredExactly(trace[0], ws, pages, refused);
    if NoneMarked(trace[0], ws) { ReviveNone(trace[0], DeletedFrom(ws, 0)); }
  }

  lemma FirstOk(trace: seq<Pages>, ws: seq<Record>)
    requires Traced(trace, ws) && (ws == [] ==> AllOk(trace[0]))
    ensures AllOk(trace[0])
  {
    if ws != [] { assert DidAt(trace, ws, 0); }
  }

  lemma UndoAllStep(pages: Pages, ws: seq<Record>, n: nat, refused: set<nat>)
    requires 0 < n <= |ws|
    ensures UndoAll(pages, ws, n, refused) ==
      if !UndoReady(pages, ws[n - 1]) then Tripped
      else UndoAll(Undo(pages, ws[n - 1]), ws, n - 1, Refused(refused, n - 1, Refuses(pages, ws[n - 1])))
  {
  }

  /** Every table on the way is well formed. */
  ghost predicate OkAllTheWay(pages: Pages, ws: seq<Record>, n: nat)
    requires n <= |ws|
  {
    AllOk(pages) && (n > 0 && UndoReady(pages, ws[n - 1]) ==> OkAllTheWay(Undo(pages, ws[n - 1]), ws, n - 1))
  }

  lemma OkStep(pages: Pages, ws: seq<Record>, n: nat)
    requires 0 < n <= |ws| && OkAllTheWay(pages, ws, n) && UndoReady(pages, ws[n - 1])
    ensures OkAllTheWay(Undo(pages, ws[n - 1]), ws, n - 1)
    ensures var rec := ws[n - 1]; PageOk(UndoPage(pages[rec.rid.page], rec.rid.slot, rec))
  {
    var rec := ws[n - 1];
    assert Undo(pages, rec)[rec.rid.page] == UndoPage(pages[rec.rid.page], rec.rid.slot, rec);
  }

  type Kept = (nat, Pages, set<nat>) -> bool

  /** One turn keeps `kept`, and trips exactly if the slot is not there. */
  ghost predicate TurnKeeps(at: Pages, ws: seq<Record>, kept: Kept, n: nat, pages: Pages, refused: set<nat>)
    requires n < |ws|
  {
    && AllOk(pages) && (UndoReady(pages, ws[n]) <==> SlotThere(at, ws[n]))
    && (UndoReady(pages, ws[n]) ==> kept(n, Undo(pages, ws[n]), Refused(refused, n, Refuses(pages, ws[n]))))
  }

  /** What every turn keeps holds at the end. */
  lemma {:induction false} LoopKeeps(at: Pages, ws: seq<Record>, kept: Kept, n: nat, pages: Pages, refused: set<nat>)
    requires n <= |ws| && kept(n, pages, refused) && (forall p, r :: kept(0, p, r) ==> AllOk(p))
    requires forall m: nat, p, r {:trigger TurnKeeps(at, ws, kept, m, p, r)} ::
               m < |ws| && kept(m + 1, p, r) ==> TurnKeeps(at, ws, kept, m, p, r)
    ensures OkAllTheWay(pages, ws, n)
    ensures UndoAll(pages, ws, n, refused) != Tripped <==> SlotsThere(at, ws, n)
    ensures var o := UndoAll(pages, ws, n, refused); o != Tripped ==> kept(0, o.pages, o.refused)
  {
    if n > 0 {
      assert TurnKeeps(at, ws, kept, n - 1, pages, refused);
      if UndoReady(pages, ws[n - 1]) {
        var now := Refuses(pages, ws[n - 1]);
        LoopKeeps(at, ws, kept, n - 1, Undo(pages, ws[n - 1]), Refused(refused, n - 1, now));
      }
    }
  }

  lemma UndoAllKeeps(trace: seq<Pages>, ws: seq<Record>)
    requires Traced(trace, ws) && AllOk(trace[|ws|])
      && forall k :: k in trace[|ws|] ==> trace[|ws|][k].size == PAGE_SIZE
    ensures OkAllTheWay(trace[|ws|], ws, |ws|)
    ensures UndoAll(trace[|ws|], ws, |ws|, {}) != Tripped <==> SlotsThere(trace[|ws|], ws, |ws|)
    ensures var o := UndoAll(trace[|ws|], ws, |ws|, {}); o != Tripped ==> Rolling(trace, ws, 0, o.pages, o.refused)
  {
    var kept: Kept := (n: nat, p, r) => n <= |ws| && Rolling(trace, ws, n, p, r);
    RollingStart(trace, ws);
    forall m: nat, p, r | m < |ws| && kept(m + 1, p, r) ensures TurnKeeps(trace[|ws|], ws, kept, m, p, r) {
      RollingStep(trace, ws, m, p, r);
    }
    LoopKeeps(trace[|ws|], ws, kept, |ws|, trace[|ws|], {});
  }

  /** Abort of any run of writes. No assertion trips exactly if every recorded delete names a slot its page has. Every
    * table on the way is well formed, and the last is as AbortLeaves says. Every undo goes through exactly if room was
    * kept for each shrinking update. The table is restored exactly if no tuple's first update was refused and none of
    * the deleted tuples was marked at the start; with every undo through, byte for byte. */
  lemma AbortExact(trace: seq<Pages>, ws: seq<Record>)
    requires Traced(trace, ws) && AllOk(trace[|ws|])
      && forall k :: k in trace[|ws|] ==> trace[|ws|][k].size == PAGE_SIZE
    ensures AllOk(trace[0]) && OkAllTheWay(trace[|ws|], ws, |ws|)
    ensures var o := UndoAll(trace[|ws|], ws, |ws|, {});
      && (o != Tripped <==> SlotsThere(trace[|ws|], ws, |ws|))
      && (o != Tripped ==>
           && AbortLeaves(trace[0], ws, o.pages, o.refused)
           && (o.refused == {} <==> AllRoomKept(trace, ws))
           && (SameCells(trace[0], o.pages) <==> NoneMarked(trace[0], ws) && Lost(ws, 0, o.refused) == {})
           && (o.refused == {} && NoneMarked(trace[0], ws) ==> LikeTable(trace[0], o.pages)))
  {
    FirstOk(trace, ws);
    UndoAllKeeps(trace, ws);
    var o := UndoAll(trace[|ws|], ws, |ws|, {});
    if o != Tripped { RollingEnd(trace, ws, o.pages, o.refused); }
  }
}
