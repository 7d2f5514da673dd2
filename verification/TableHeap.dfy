/** The table heap: a chain of table pages, and the write records its operations leave with the transaction. */
module TableHeapObject {
  import opened Config
  import opened ByteCodec
  import opened SlottedPage
  import opened SlottedUpdate
  import opened HeapCells
  import opened Rollback
  import opened AbortRun
  import opened CommitDeletes
  import opened LockProtocol

  class Transaction {
    var state: TxnState
    var writeSet: seq<Record>

    constructor ()
      ensures state == Growing && writeSet == []
    {
      state, writeSet := Growing, [];
    }
  }

  datatype Placed = Rejected | PlacedAt(rid: Rid)

  ghost predicate LinkAt(chain: seq<int>, next: map<int, int>, i: int)
    requires 0 <= i < |chain|
  {
    && 0 <= chain[i] && chain[i] in next
    && next[chain[i]] == if i + 1 < |chain| then chain[i + 1] else INVALID_PAGE_ID
  }

  class TableHeap {
    const first: int
    var pages: Pages
    var next: map<int, int>
    var nextId: int
    ghost var chain: seq<int>

    /** The next-page links lead from the first page through all pages; every page is well formed. */
    ghost predicate Valid()
      reads this
    {
      && AllOk(pages) && (forall k :: k in pages ==> pages[k].size == PAGE_SIZE && 0 <= k < nextId)
      && |chain| > 0 && chain[0] == first && nextId >= 0
      && (forall k :: k in pages <==> k in chain)
      && (forall i {:trigger LinkAt(chain, next, i)} :: 0 <= i < |chain| ==> LinkAt(chain, next, i))
    }

    constructor (firstId: nat)
      ensures Valid() && forall r :: CellIn(pages, r) == Empty
    {
      first, nextId := firstId, firstId + 1;
      pages, next, chain := map[firstId := Page(PAGE_SIZE, [], [])], map[firstId := INVALID_PAGE_ID], [firstId];
      new;
      assert PageOk(pages[firstId]);
      assert LinkAt(chain, next, 0);
    }

    /** A new page at the end of the chain. */
    method Extend(last: int) returns (id: int)
      requires Valid() && last == chain[|chain| - 1]
      modifies this
      ensures Valid() && id !in old(pages) && pages == old(pages)[id := Page(PAGE_SIZE, [], [])]
        && chain == old(chain) + [id]
    {
      id := nextId;
      nextId := nextId + 1;
      assert id !in pages;
      ghost var cs, ns := chain, next;
      next := next[last := id][id := INVALID_PAGE_ID];
      pages := pages[id := Page(PAGE_SIZE, [], [])];
      chain := chain + [id];
      assert PageOk(pages[id]);
      forall i | 0 <= i < |chain| ensures LinkAt(chain, next, i) {
        if i < |cs| {
          assert LinkAt(cs, ns, i) && LinkAt(cs, ns, |cs| - 1) && cs[i] in pages;
          assert i < |cs| - 1 ==> LinkAt(cs, ns, i + 1);
        }
      }
    }

    /** InsertTuple walks the chain to the first page with room, adding a page when there is none. */
    method InsertTuple(t: Bytes, txn: Transaction) returns (r: Placed)
      requires Valid() && t != []
      modifies this, txn
      ensures Valid()
      ensures r == Rejected <==> |t| + 32 > PAGE_SIZE
      ensures r == Rejected ==> pages == old(pages) && txn.writeSet == old(txn.writeSet) && txn.state == Aborted
      ensures r != Rejected ==>
        && txn.state == old(txn.state) && txn.writeSet == old(txn.writeSet) + [InsertRec(r.rid)]
        && CellIn(old(pages), r.rid) == Empty && Changed(old(pages), pages, r.rid, Live(t))
        && Did(old(pages), pages, InsertRec(r.rid))
        && FirstFit(old(chain), old(pages), t, r.rid.page)
    {
      if |t| + 32 > PAGE_SIZE {
        txn.state := Aborted;
        return Rejected;
      }
      var cur, slot := FindRoom(t);
      PlaceIn(cur, t);
      r := PlacedAt(Rid(cur, slot));
      InsertDone(old(pages), pages, r.rid, t);
      txn.writeSet := txn.writeSet + [InsertRec(r.rid)];
    }

    method PlaceIn(cur: int, t: Bytes)
      requires Valid() && t != [] && cur in pages
      modifies this`pages
      ensures Valid() && pages == old(pages)[cur := SlottedPage.InsertTuple(old(pages)[cur], t).1]
    {
      ghost var before := pages;
      InsertOk(pages[cur], t);
      pages := pages[cur := SlottedPage.InsertTuple(pages[cur], t).1];
      StillValid(before, cur, pages[cur]);
    }

    lemma EndOfChain(i: nat)
      requires Valid() && i < |chain|
      ensures chain[i] in pages && chain[i] in next && (next[chain[i]] == INVALID_PAGE_ID <==> i + 1 == |chain|)
    {
      assert LinkAt(chain, next, i) && chain[i] in chain;
      if i + 1 < |chain| { assert chain[i + 1] in chain; }
    }

    /** The page walk: to the first page with room, or to the last page. */
    method Walk(t: Bytes) returns (cur: int, ghost i: nat)
      requires Valid() && t != []
      ensures i < |chain| && cur == chain[i] && cur in pages && forall j :: 0 <= j < i ==> NoRoom(pages, chain[j], t)
      ensures SlottedPage.InsertTuple(pages[cur], t).0 == Full ==> i + 1 == |chain|
    {
      cur, i := first, 0;
      EndOfChain(0);
      while SlottedPage.InsertTuple(pages[cur], t).0 == Full && next[cur] != INVALID_PAGE_ID
        invariant 0 <= i < |chain| && cur == chain[i] && cur in pages && cur in next
        invariant next[cur] == INVALID_PAGE_ID <==> i + 1 == |chain|
        invariant forall j :: 0 <= j < i ==> NoRoom(pages, chain[j], t)
        decreases |chain| - i
      {
        assert LinkAt(chain, next, i);
        EndOfChain(i + 1);
        cur, i := next[cur], i + 1;
      }
    }

    /** A page with room, a new one if need be. */
    method FindRoom(t: Bytes) returns (cur: int, slot: nat)
      requires Valid() && t != [] && |t| + 32 <= PAGE_SIZE
      modifies this
      ensures Valid() && cur in pages && FirstFit(old(chain), old(pages), t, cur)
      ensures pages[cur] == Base(old(pages), cur) && pages == old(pages)[cur := pages[cur]]
      ensures SlottedPage.InsertTuple(pages[cur], t).0 == In(slot)
    {
      ghost var i: nat;
      cur, i := Walk(t);
      FitsFirst(chain, pages, t, i);
      if SlottedPage.InsertTuple(pages[cur], t).0 == Full {
        cur := Extend(cur);
      } else {
        assert pages[cur := pages[cur]] == pages;
      }
      slot := SlottedPage.InsertTuple(pages[cur], t).0.slot;
    }

    lemma StillValid(before: Pages, k: int, q: Page)
      requires k in before && AllOk(before) && PageOk(q) && q.size == before[k].size && pages == before[k := q]
      requires forall k :: k in before ==> before[k].size == PAGE_SIZE && 0 <= k < nextId
      requires |chain| > 0 && chain[0] == first && nextId >= 0 && (forall k :: k in before <==> k in chain)
      requires forall i {:trigger LinkAt(chain, next, i)} :: 0 <= i < |chain| ==> LinkAt(chain, next, i)
      ensures Valid()
    {
    }

    /** MarkDelete marks a live tuple; whatever it finds, it records a delete and answers true. */
    method MarkDelete(r: Rid, txn: Transaction) returns (ok: bool)
      requires Valid() && r.page in pages
      modifies this`pages, txn`writeSet
      ensures ok && Valid() && txn.writeSet == old(txn.writeSet) + [DeleteRec(r)]
      ensures var c := CellIn(old(pages), r); Changed(old(pages), pages, r, if c.Live? then Marked(c.bytes) else c)
      ensures Did(old(pages), pages, DeleteRec(r))
    {
      ghost var before := pages;
      var q := SlottedPage.MarkDelete(pages[r.page], r.slot).1;
      MarkCell(pages[r.page], r.slot);
      ghost var c := CellIn(pages, r);
      PageChanged(pages, r, q, if c.Live? then Marked(c.bytes) else c);
      pages := pages[r.page := q];
      StillValid(before, r.page, q);
      txn.writeSet := txn.writeSet + [DeleteRec(r)];
      return true;
    }

    /** UpdateTuple replaces one live tuple, if there is room; the table survives exactly if the update is safe, and
      * the old tuple is recorded unless the transaction is aborted. */
    method UpdateTuple(t: Bytes, r: Rid, txn: Transaction) returns (ok: bool)
      requires Valid() && r.page in pages
      modifies this`pages, txn`writeSet
      ensures ok <==> LiveAt(old(pages), r) && Room(old(pages)[r.page]) >= |t| - old(pages)[r.page].slots[r.slot].size
      ensures !ok ==> Valid() && pages == old(pages) && txn.writeSet == old(txn.writeSet)
      ensures ok ==>
        && Inside(old(pages)[r.page], r.slot)
        && pages == old(pages)[r.page := SlottedUpdate.UpdateTuple(old(pages)[r.page], r.slot, t).1]
        && (Valid() <==> UpdateSafe(old(pages)[r.page], r.slot, |t|)) && CellIn(old(pages), r).Live?
        && txn.writeSet == old(txn.writeSet) + if txn.state == Aborted then []
           else [UpdateRec(r, CellIn(old(pages), r).bytes)]
      ensures ok && Valid() ==> Changed(old(pages), pages, r, if t == [] then Empty else Live(t))
      ensures ok && Valid() && t != [] ==> Did(old(pages), pages, UpdateRec(r, CellIn(old(pages), r).bytes))
    {
      ghost var before := pages;
      var p := pages[r.page];
      UpdateCell(p, r.slot, t);
      var (u, q) := SlottedUpdate.UpdateTuple(p, r.slot, t);
      if u == NotUpdated {
        return false;
      }
      UpdateExact(p, r.slot, t);
      pages := pages[r.page := q];
      if txn.state != Aborted {
        txn.writeSet := txn.writeSet + [UpdateRec(r, u.before)];
      }
      if UpdateSafe(p, r.slot, |t|) {
        PageChanged(before, r, q, if t == [] then Empty else Live(t));
        StillValid(before, r.page, q);
        assert t != [] ==> DidUpdate(before, pages, r, u.before, t);
      } else {
        assert !PageOk(pages[r.page]);
      }
      return true;
    }

    method RollbackDelete(r: Rid)
      requires Valid() && r.page in pages && r.slot < |pages[r.page].slots|
      modifies this`pages
      ensures Valid() && pages == old(pages)[r.page := SlottedPage.RollbackDelete(old(pages)[r.page], r.slot)]
    {
      ghost var before := pages;
      UnmarkCell(pages[r.page], r.slot);
      var q := SlottedPage.RollbackDelete(pages[r.page], r.slot);
      pages := pages[r.page := q];
      StillValid(before, r.page, q);
    }

    /** ApplyDelete; its two assertions are the precondition. */
    method ApplyDelete(r: Rid)
      requires Valid() && r.page in pages && r.slot < |pages[r.page].slots| && Inside(pages[r.page], r.slot)
      modifies this`pages
      ensures Valid() && pages == old(pages)[r.page := SlottedUpdate.ApplyDelete(old(pages)[r.page], r.slot)]
    {
      ghost var before := pages;
      ApplyDeleteOk(pages[r.page], r.slot);
      var q := SlottedUpdate.ApplyDelete(pages[r.page], r.slot);
      pages := pages[r.page := q];
      StillValid(before, r.page, q);
    }

    /** The undo of one record while the transaction is aborted leaves no record of its own; false if it was refused. */
    method UndoOne(rec: Record, txn: Transaction) returns (ok: bool)
      requires Valid() && UndoReady(pages, rec) && txn.state == Aborted
      requires PageOk(UndoPage(pages[rec.rid.page], rec.rid.slot, rec))
      modifies this`pages, txn`writeSet
      ensures Valid() && pages == Undo(old(pages), rec) && txn.writeSet == old(txn.writeSet)
      ensures ok <==> !Refuses(old(pages), rec)
    {
      match rec {
        case DeleteRec(r) =>
          RollbackDelete(r);
          ok := true;
        case InsertRec(r) =>
          ApplyDelete(r);
          ok := true;
        case UpdateRec(r, before) =>
          ghost var was := pages;
          UpdateCell(pages[r.page], r.slot, before);
          ok := UpdateTuple(before, r, txn);
          if ok {
            StillValid(was, r.page, pages[r.page]);
          } else {
            assert was[r.page := was[r.page]] == was;
          }
      }
    }
  }

  /** One turn of the abort loop: the last record is undone and dropped. False means that an assertion of ApplyDelete or
    * RollbackDelete has tripped. */
  method UndoLast(heap: TableHeap, txn: Transaction, refused: set<nat>) returns (ok: bool, refused': set<nat>)
    requires heap.Valid() && txn.state == Aborted && txn.writeSet != []
    requires OkAllTheWay(heap.pages, txn.writeSet, |txn.writeSet|)
    modifies heap`pages, txn`writeSet
    ensures heap.Valid() && var ws, n := old(txn.writeSet), |old(txn.writeSet)| - 1;
      if ok
      then
        && txn.writeSet == ws[..n] && OkAllTheWay(heap.pages, ws, n)
        && UndoAll(heap.pages, ws, n, refused') == UndoAll(old(heap.pages), ws, n + 1, refused)
      else UndoAll(old(heap.pages), ws, n + 1, refused) == Tripped
  {
    var n := |txn.writeSet| - 1;
    var item := txn.writeSet[n];
    refused' := refused;
    UndoAllStep(heap.pages, txn.writeSet, n + 1, refused);
    if !UndoReady(heap.pages, item) {
      return false, refused;
    }
    OkStep(heap.pages, txn.writeSet, n + 1);
    ok := heap.UndoOne(item, txn);
    if !ok {
      refused' := refused + {n};
    }
    txn.writeSet := txn.writeSet[..n];
    ok := true;
  }

  /** The abort loop. */
  method UndoWrites(heap: TableHeap, txn: Transaction) returns (ok: bool, refused: set<nat>)
    requires heap.Valid() && txn.state == Aborted && OkAllTheWay(heap.pages, txn.writeSet, |txn.writeSet|)
    modifies heap`pages, txn`writeSet
    ensures heap.Valid() && (ok ==> txn.writeSet == [])
    ensures var ws := old(txn.writeSet);
      UndoAll(old(heap.pages), ws, |ws|, {}) == if ok then RolledBack(heap.pages, refused) else Tripped
  {
    ghost var ws := txn.writeSet;
    ok, refused := true, {};
    while ok && |txn.writeSet| > 0
      invariant heap.Valid() && (if ok then Undoing(heap.pages, txn.writeSet, ws, refused, old(heap.pages))
                                 else UndoAll(old(heap.pages), ws, |ws|, {}) == Tripped)
      decreases ok, |txn.writeSet|
    {
      ghost var pages, left, were := heap.pages, txn.writeSet, refused;
      UndoingPrefix(pages, left, ws, were, old(heap.pages));
      ok, refused := UndoLast(heap, txn, refused);
      if ok { UndoingNext(heap.pages, left, ws, refused, pages, were, old(heap.pages)); }
    }
  }

  /** The records `left` are still to be undone. */
  ghost predicate Undoing(pages: Pages, left: seq<Record>, ws: seq<Record>, refused: set<nat>, start: Pages) {
    && |left| <= |ws| && left == ws[..|left|] && OkAllTheWay(pages, ws, |left|)
    && UndoAll(pages, ws, |left|, refused) == UndoAll(start, ws, |ws|, {})
  }

  /** The loop looks only at the records that are left. */
  lemma UndoingPrefix(pages: Pages, left: seq<Record>, ws: seq<Record>, refused: set<nat>, start: Pages)
    requires Undoing(pages, left, ws, refused, start)
    ensures OkAllTheWay(pages, left, |left|) && UndoAll(pages, left, |left|, refused) == UndoAll(start, ws, |ws|, {})
  {
    UndoPrefix(pages, left, ws, |left|, refused);
  }

  lemma {:induction false} UndoPrefix(pages: Pages, left: seq<Record>, ws: seq<Record>, n: nat, refused: set<nat>)
    requires n <= |left| <= |ws| && left == ws[..|left|]
    ensures UndoAll(pages, left, n, refused) == UndoAll(pages, ws, n, refused)
    ensures OkAllTheWay(pages, left, n) <==> OkAllTheWay(pages, ws, n)
    decreases n
  {
    if n > 0 && UndoReady(pages, ws[n - 1]) {
      assert left[n - 1] == ws[n - 1];
      var now := Refuses(pages, ws[n - 1]);
      UndoPrefix(Undo(pages, ws[n - 1]), left, ws, n - 1, Refused(refused, n - 1, now));
    }
  }

  lemma UndoingNext(pages: Pages, was: seq<Record>, ws: seq<Record>, refused: set<nat>, before: Pages, were: set<nat>,
      start: Pages)
    requires was != [] && Undoing(before, was, ws, were, start) && OkAllTheWay(pages, was, |was| - 1)
    requires UndoAll(pages, was, |was| - 1, refused) == UndoAll(before, was, |was|, were)
    ensures Undoing(pages, was[..|was| - 1], ws, refused, start)
  {
    UndoPrefix(pages, was, ws, |was| - 1, refused);
    UndoPrefix(before, was, ws, |was|, were);
  }

  /** Abort undoes the write set from the back, whatever it holds. It gets through, tripping no assertion, exactly if
    * every recorded delete names a slot its page has. Then every undo goes through exactly if for each shrinking
    * update the room before it pays for the directory entries appended to its page since. What the table holds is what
    * it held at Begin exactly if no deleted tuple was already marked at Begin and no tuple's first update was refused;
    * with every undo through, the pages are the same byte for byte, but for empty slots and pages. */
  method Abort(heap: TableHeap, txn: Transaction, ghost trace: seq<Pages>) returns (ok: bool, refused: set<nat>)
    requires heap.Valid() && Traced(trace, txn.writeSet) && trace[|txn.writeSet|] == heap.pages
    modifies heap`pages, txn
    ensures heap.Valid() && txn.state == Aborted && AllOk(trace[0])
    ensures ok <==> SlotsThere(old(heap.pages), old(txn.writeSet), |old(txn.writeSet)|)
    ensures ok ==> txn.writeSet == [] && AbortLeaves(trace[0], old(txn.writeSet), heap.pages, refused)
    ensures ok ==> (refused == {} <==> AllRoomKept(trace, old(txn.writeSet)))
    ensures ok ==>
      (SameCells(trace[0], heap.pages) <==>
        NoneMarked(trace[0], old(txn.writeSet)) && Lost(old(txn.writeSet), 0, refused) == {})
    ensures ok && refused == {} && NoneMarked(trace[0], old(txn.writeSet)) ==> LikeTable(trace[0], heap.pages)
  {
    txn.state := Aborted;
    AbortExact(trace, txn.writeSet);
    ok, refused := UndoWrites(heap, txn);
  }

  datatype HeapOp = DoInsert(tuple: Bytes) | DoDelete(rid: Rid) | DoUpdate(rid: Rid, tuple: Bytes)

  /** An insert or update of a tuple that is not empty, a delete on a page of the table; an update must be safe. */
  predicate Applicable(pages: Pages, op: HeapOp) {
    match op
    case DoInsert(t) => t != []
    case DoDelete(r) => r.page in pages
    case DoUpdate(r, t) =>
      && t != [] && LiveAt(pages, r)
      && var p := pages[r.page];
         p.slots[r.slot].size == |t| || forall j :: 0 <= j < |p.slots| ==> !MarkedBelow(p, r.slot, j)
  }

  /** One applicable write: it goes through and leaves one record, or it changes nothing; an oversized insert aborts. */
  method WriteOne(heap: TableHeap, txn: Transaction, op: HeapOp) returns (ok: bool)
    requires heap.Valid() && txn.state != Aborted && Applicable(heap.pages, op)
    modifies heap, txn
    ensures heap.Valid()
    ensures !ok ==> heap.pages == old(heap.pages) && txn.writeSet == old(txn.writeSet)
    ensures txn.state == if op.DoInsert? && |op.tuple| + 32 > PAGE_SIZE then Aborted else old(txn.state)
    ensures ok ==> |txn.writeSet| == |old(txn.writeSet)| + 1
                   && txn.writeSet[..|old(txn.writeSet)|] == old(txn.writeSet)
                   && Did(old(heap.pages), heap.pages, txn.writeSet[|old(txn.writeSet)|])
  {
    match op {
      case DoInsert(t) =>
        var r := heap.InsertTuple(t, txn);
        ok := r != Rejected;
      case DoDelete(r) =>
        ok := heap.MarkDelete(r, txn);
      case DoUpdate(r, t) =>
        assert UpdateSafe(heap.pages[r.page], r.slot, |t|);
        ok := heap.UpdateTuple(t, r, txn);
    }
  }

  /** A transaction run alone: any list of inserts, deletes and safe updates, up to an oversized insert if
    * there is one. */
  method RunWrites(heap: TableHeap, txn: Transaction, ops: seq<HeapOp>) returns (trace: seq<Pages>)
    requires heap.Valid() && txn.writeSet == [] && txn.state != Aborted
    modifies heap, txn
    ensures heap.Valid() && Traced(trace, txn.writeSet) && trace[0] == old(heap.pages)
      && trace[|txn.writeSet|] == heap.pages
  {
    trace := [heap.pages];
    var i := 0;
    while i < |ops| && txn.state != Aborted
      invariant heap.Valid() && i <= |ops|
      invariant Traced(trace, txn.writeSet) && trace[0] == old(heap.pages) && trace[|txn.writeSet|] == heap.pages
    {
      if Applicable(heap.pages, ops[i]) {
        ghost var ws := txn.writeSet;
        var ok := WriteOne(heap, txn, ops[i]);
        if ok {
          assert txn.writeSet == ws + [txn.writeSet[|ws|]];
          TraceExtends(trace, ws, heap.pages, txn.writeSet[|ws|]);
          trace := trace + [heap.pages];
        }
      }
      i := i + 1;
    }
  }

  /** Such a run and then Abort. */
  method RunAndAbort(heap: TableHeap, ops: seq<HeapOp>)
    returns (trace: seq<Pages>, ws: seq<Record>, ok: bool, refused: set<nat>)
    requires heap.Valid()
    modifies heap
    ensures heap.Valid() && Traced(trace, ws) && trace[0] == old(heap.pages)
    ensures ok <==> SlotsThere(trace[|ws|], ws, |ws|)
    ensures ok ==> AbortLeaves(old(heap.pages), ws, heap.pages, refused) && (refused == {} <==> AllRoomKept(trace, ws))
    ensures ok ==>
      (SameCells(old(heap.pages), heap.pages) <==> NoneMarked(old(heap.pages), ws) && Lost(ws, 0, refused) == {})
    ensures ok && refused == {} && NoneMarked(old(heap.pages), ws) ==> LikeTable(old(heap.pages), heap.pages)
  {
    var txn := new Transaction();
    trace := RunWrites(heap, txn, ops);
    ws := txn.writeSet;
    ok, refused := Abort(heap, txn, trace);
  }

  /** The commit loop; false means that an assertion of ApplyDelete has tripped. */
  method CarryOutDeletes(heap: TableHeap, txn: Transaction) returns (ok: bool)
    requires heap.Valid()
    modifies heap`pages, txn`writeSet
    ensures heap.Valid() && (ok <==> CarryOut(old(heap.pages), old(txn.writeSet)).Done?)
    ensures ok ==> heap.pages == CarryOut(old(heap.pages), old(txn.writeSet)).pages && txn.writeSet == []
  {
    while |txn.writeSet| > 0
      invariant heap.Valid()
      invariant CarryOut(heap.pages, txn.writeSet) == CarryOut(old(heap.pages), old(txn.writeSet))
      decreases |txn.writeSet|
    {
      CarryOutLast(heap.pages, txn.writeSet);
      var item := txn.writeSet[|txn.writeSet| - 1];
      if item.DeleteRec? {
        if !Removable(heap.pages, item.rid) {
          return false;
        }
        heap.ApplyDelete(item.rid);
      }
      txn.writeSet := txn.writeSet[..|txn.writeSet| - 1];
    }
    return true;
  }

  /** Commit carries out the recorded deletes. It gets through exactly when they are of slots that are not empty, each
    * recorded once, and then exactly those slots are emptied. */
  method Commit(heap: TableHeap, txn: Transaction) returns (ok: bool)
    requires heap.Valid()
    modifies heap`pages, txn
    ensures heap.Valid() && txn.state == Committed
    ensures ok <==> CarryOut(old(heap.pages), old(txn.writeSet)).Done?
    ensures ok ==> heap.pages == CarryOut(old(heap.pages), old(txn.writeSet)).pages && txn.writeSet == []
    ensures AllTidy(old(heap.pages)) ==> (ok <==> DeletesOk(old(heap.pages), old(txn.writeSet)))
    ensures AllTidy(old(heap.pages)) && ok ==> CarriedOut(old(heap.pages), old(txn.writeSet), heap.pages)
  {
    ghost var at, ws := heap.pages, txn.writeSet;
    txn.state := Committed;
    ok := CarryOutDeletes(heap, txn);
    if AllTidy(at) { CommitExact(at, ws); }
  }

  lemma InsertDone(a: Pages, b: Pages, r: Rid, t: Bytes)
    requires AllOk(a) && DidInsert(a, b, r, t)
    ensures Did(a, b, InsertRec(r)) && AllOk(b) && CellIn(a, r) == Empty && Changed(a, b, r, Live(t))
  {
    DidCells(a, b, InsertRec(r));
    assert PageOk(Page(PAGE_SIZE, [], []));
    InsertOk(Base(a, r.page), t);
  }

  lemma FitsFirst(chain: seq<int>, pages: Pages, t: Bytes, i: nat)
    requires i < |chain| && forall j :: 0 <= j < i ==> NoRoom(pages, chain[j], t)
    ensures FirstFit(chain, pages, t, chain[i])
    ensures i + 1 == |chain| && NoRoom(pages, chain[i], t) ==> forall k :: FirstFit(chain, pages, t, k)
  {
    forall j | 0 <= j < |chain| ensures NoRoom(pages, chain[j], t) || chain[i] in chain[..j + 1] {
      if i <= j { assert chain[..j + 1][i] == chain[i]; }
    }
  }

  ghost predicate NoRoom(pages: Pages, k: int, t: Bytes) {
    k in pages && SlottedPage.InsertTuple(pages[k], t).0 == Full
  }

  /** The tuple went to the first page of the chain that had room, or to a new one after all of them. */
  ghost predicate FirstFit(chain: seq<int>, pages: Pages, t: Bytes, k: int) {
    forall j :: 0 <= j < |chain| && k !in chain[..j + 1] ==> NoRoom(pages, chain[j], t)
  }
}
