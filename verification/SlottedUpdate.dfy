/** In-place compaction: updating a tuple to another length, and removing one for good. */
module SlottedUpdate {
  import opened Config
  import opened ByteCodec
  import opened SlottedPage

  /** The tuple area with the bytes of slot i replaced. */
  function Splice(p: Page, i: int, t: Bytes): (r: Bytes)
    requires 0 <= i < |p.slots| && Inside(p, i)
    ensures |r| == |p.tail| - p.slots[i].Length() + |t|
  {
    p.tail[..p.slots[i].offset - Free(p)] + t + p.tail[p.slots[i].End() - Free(p)..]
  }

  /** What lies wholly below or wholly above the replaced bytes is still there. */
  lemma SpliceSlices(p: Page, i: int, t: Bytes, a: int, b: int)
    requires 0 <= i < |p.slots| && Inside(p, i) && 0 <= a <= b <= |p.tail|
    ensures b <= p.slots[i].offset - Free(p) ==> Splice(p, i, t)[a..b] == p.tail[a..b]
    ensures var d := |t| - p.slots[i].Length();
      p.slots[i].End() - Free(p) <= a ==> Splice(p, i, t)[a + d..b + d] == p.tail[a..b]
  {
  }

  // ---- Update ----

  /** Slot j after slot i took n bytes: live tuples at lower offsets move with it, marked ones do not. */
  function Shifted(slots: seq<Slot>, i: nat, n: nat, j: nat): Slot
    requires i < |slots| && j < |slots|
  {
    var s := if j == i then slots[i].(size := n) else slots[j];
    if s.size > 0 && s.offset < slots[i].offset + slots[i].size then s.(offset := s.offset + slots[i].size - n) else s
  }

  function ShiftAll(slots: seq<Slot>, i: nat, n: nat): (r: seq<Slot>)
    requires i < |slots|
    ensures |r| == |slots| && forall j :: 0 <= j < |slots| ==> r[j] == Shifted(slots, i, n, j)
  {
    seq(|slots|, j requires 0 <= j < |slots| => Shifted(slots, i, n, j))
  }

  datatype Updated = NotUpdated | Updated(before: Bytes)

  function UpdateTuple(p: Page, i: nat, t: Bytes): (Updated, Page)
    requires i < |p.slots| && p.slots[i].size > 0 ==> Inside(p, i)
  {
    if i >= |p.slots| || p.slots[i].size <= 0 || Room(p) < |t| - p.slots[i].size then (NotUpdated, p)
    else (Updated(TupleAt(p, i)), Page(p.size, ShiftAll(p.slots, i, |t|), Splice(p, i, t)))
  }

  /** Slot j is marked as deleted and lies below slot i. */
  predicate MarkedBelow(p: Page, i: nat, j: int)
    requires i < |p.slots|
  {
    0 <= j < |p.slots| && p.slots[j].size < 0 && p.slots[j].offset < p.slots[i].offset
  }

  /** The condition a caller can check: same length, or no marked tuple at a lower offset. */
  ghost predicate UpdateSafe(p: Page, i: nat, n: nat)
    requires i < |p.slots|
  {
    p.slots[i].size == n || forall j {:trigger MarkedBelow(p, i, j)} :: !MarkedBelow(p, i, j)
  }

  ghost predicate Replaced(p: Page, q: Page, i: nat, t: Bytes) {
    && q.size == p.size && |q.slots| == |p.slots| && OthersSame(p, q, i)
    && i < |q.slots| && q.slots[i].size == |t| && (t != [] ==> Inside(q, i) && TupleAt(q, i) == t)
  }

  /** How an address of p moves. */
  function Move(p: Page, i: nat, n: nat, x: int): int
    requires i < |p.slots|
  {
    if x < p.slots[i].offset then x + p.slots[i].size - n else x
  }

  /** Below slot i, a used slot of a safe update moves as a whole; above it, it stays. */
  lemma ShiftedIs(p: Page, i: nat, n: nat, j: nat)
    requires PageOk(p) && i < |p.slots| && p.slots[i].size > 0 && UpdateSafe(p, i, n)
    requires j != i && Used(p, j)
    ensures Shifted(p.slots, i, n, j) == p.slots[j].(offset := Move(p, i, n, p.slots[j].offset))
    ensures p.slots[j].End() <= p.slots[i].offset || p.slots[i].End() <= p.slots[j].offset
  {
    assert p.slots[i].size == n || !MarkedBelow(p, i, j);
    assert Apart(p, i, j);
  }

  /** The page after an update that goes through. */
  function Rewritten(p: Page, i: nat, t: Bytes): Page
    requires Used(p, i) && Inside(p, i)
  {
    Page(p.size, ShiftAll(p.slots, i, |t|), Splice(p, i, t))
  }

  lemma UpdateOther(p: Page, i: nat, t: Bytes, j: int)
    requires PageOk(p) && Used(p, i) && p.slots[i].size > 0 && Inside(p, i) && UpdateSafe(p, i, |t|) && j != i
    ensures SameSlot(p, Rewritten(p, i, t), j)
  {
    if Used(p, j) {
      ShiftedIs(p, i, |t|, j);
      assert Inside(p, j);
      SpliceSlices(p, i, t, p.slots[j].offset - Free(p), p.slots[j].End() - Free(p));
    }
  }

  lemma UpdateSelf(p: Page, i: nat, t: Bytes)
    requires Used(p, i) && p.slots[i].size > 0 && Inside(p, i) && t != []
    ensures Inside(Rewritten(p, i, t), i) && TupleAt(Rewritten(p, i, t), i) == t
  {
  }

  lemma UpdateKeepsOthers(p: Page, i: nat, t: Bytes)
    requires PageOk(p) && Used(p, i) && p.slots[i].size > 0 && Inside(p, i) && UpdateSafe(p, i, |t|)
    ensures Replaced(p, Rewritten(p, i, t), i, t)
  {
    forall j | j != i ensures SameSlot(p, Rewritten(p, i, t), j) { UpdateOther(p, i, t, j); }
    if t != [] { UpdateSelf(p, i, t); }
  }

  lemma UpdateApart(p: Page, i: nat, t: Bytes, j: int, k: int)
    requires PageOk(p) && Used(p, i) && p.slots[i].size > 0 && Inside(p, i) && UpdateSafe(p, i, |t|)
    requires Used(Rewritten(p, i, t), j) && Used(Rewritten(p, i, t), k) && j != k && j != i
    ensures Apart(Rewritten(p, i, t), j, k)
  {
    ShiftedIs(p, i, |t|, j);
    if k != i {
      ShiftedIs(p, i, |t|, k);
      assert Apart(p, j, k);
    }
  }

  lemma UpdateTiles(p: Page, i: nat, t: Bytes)
    requires PageOk(p) && Used(p, i) && p.slots[i].size > 0 && Inside(p, i) && UpdateSafe(p, i, |t|)
      && Room(p) >= |t| - p.slots[i].size
    ensures PageOk(Rewritten(p, i, t))
  {
    var q := Rewritten(p, i, t);
    forall j | Used(q, j) ensures Inside(q, j) {
      if j != i { UpdateOther(p, i, t, j); } else { UpdateSelf(p, i, t); }
    }
    forall j, k | Used(q, j) && Used(q, k) && j != k ensures Apart(q, j, k) {
      if j != i { UpdateApart(p, i, t, j, k); } else { UpdateApart(p, i, t, k, j); }
    }
    forall x | Free(q) <= x < q.size ensures Covered(q, x) {
      UpdateCovers(p, i, t, x);
    }
  }

  lemma UpdateCovers(p: Page, i: nat, t: Bytes, x: int)
    requires PageOk(p) && Used(p, i) && p.slots[i].size > 0 && Inside(p, i) && UpdateSafe(p, i, |t|)
    requires Free(Rewritten(p, i, t)) <= x < p.size
    ensures Covered(Rewritten(p, i, t), x)
  {
    var q := Rewritten(p, i, t);
    var end := p.slots[i].End();
    if end - |t| <= x < end {
      assert Has(q, i, x);
    } else {
      var y := if x >= end then x else x - p.slots[i].size + |t|;
      assert Covered(p, y);
      var k :| Has(p, k, y);
      ShiftedIs(p, i, |t|, k);
      assert Has(q, k, x);
    }
  }

  // ---- An unsafe update breaks the tiling ----

  /** The lowest marked slot below slot i. */
  lemma {:induction false} LowestMarked(p: Page, i: nat, j: nat, n: nat) returns (low: nat)
    requires i < |p.slots| && MarkedBelow(p, i, j) && n <= |p.slots|
    ensures MarkedBelow(p, i, low)
    ensures forall k :: MarkedBelow(p, i, k) && (k < n || k == j) ==> p.slots[low].offset <= p.slots[k].offset
  {
    if n == 0 {
      low := j;
    } else {
      low := LowestMarked(p, i, j, n - 1);
      if MarkedBelow(p, i, n - 1) && p.slots[n - 1].offset < p.slots[low].offset {
        low := n - 1;
      }
    }
  }

  lemma {:induction false} HighestMarked(p: Page, i: nat, j: nat, n: nat) returns (high: nat)
    requires i < |p.slots| && MarkedBelow(p, i, j) && n <= |p.slots|
    ensures MarkedBelow(p, i, high)
    ensures forall k :: MarkedBelow(p, i, k) && (k < n || k == j) ==> p.slots[high].offset >= p.slots[k].offset
  {
    if n == 0 {
      high := j;
    } else {
      high := HighestMarked(p, i, j, n - 1);
      if MarkedBelow(p, i, n - 1) && p.slots[n - 1].offset > p.slots[high].offset {
        high := n - 1;
      }
    }
  }

  /** Shrinking: the lowest marked tuple is left behind and run over, or falls below the free pointer. */
  lemma ShrinkBreaks(p: Page, i: nat, t: Bytes, j: nat)
    requires PageOk(p) && Used(p, i) && p.slots[i].size > |t| && Inside(p, i) && MarkedBelow(p, i, j)
    ensures !PageOk(Rewritten(p, i, t))
  {
    var q := Rewritten(p, i, t);
    var low := LowestMarked(p, i, j, |p.slots|);
    var d := p.slots[i].size - |t|;
    var y := p.slots[low].offset - d;
    assert Inside(p, low) && Used(q, low) && q.slots[low] == p.slots[low];
    if y < Free(p) {
      assert !Inside(q, low);
    } else {
      assert Covered(p, y);
      var k :| Has(p, k, y);
      assert Apart(p, i, k) && !MarkedBelow(p, i, k);
      assert q.slots[k] == p.slots[k].(offset := p.slots[k].offset + d);
      assert Used(q, k) && !Apart(q, low, k);
    }
  }

  /** Growing: the tuples above the highest marked one come down onto it. */
  lemma GrowBreaks(p: Page, i: nat, t: Bytes, j: nat)
    requires PageOk(p) && Used(p, i) && 0 < p.slots[i].size < |t| && Inside(p, i) && MarkedBelow(p, i, j)
    ensures !PageOk(Rewritten(p, i, t))
  {
    var q := Rewritten(p, i, t);
    var high := HighestMarked(p, i, j, |p.slots|);
    var d := |t| - p.slots[i].size;
    var y := p.slots[high].End() - 1 + d;
    assert Inside(p, high) && Used(q, high) && q.slots[high] == p.slots[high];
    assert Apart(p, high, i);
    if y >= p.slots[i].offset {
      assert !Apart(q, high, i);
    } else {
      assert Covered(p, y);
      var k :| Has(p, k, y);
      assert Apart(p, high, k) && !MarkedBelow(p, i, k);
      assert q.slots[k] == p.slots[k].(offset := p.slots[k].offset - d);
      assert Used(q, k) && !Apart(q, high, k);
    }
  }

  /** An update that goes through keeps the page well formed exactly when it keeps the length or no marked tuple
    * lies below it; then it hands out the old bytes, stores the new ones and disturbs no other slot. */
  lemma UpdateExact(p: Page, i: nat, t: Bytes)
    requires PageOk(p) && Used(p, i) && Inside(p, i) && p.slots[i].size > 0 && Room(p) >= |t| - p.slots[i].size
    ensures var (r, q) := UpdateTuple(p, i, t);
      && r == Updated(TupleAt(p, i))
      && (PageOk(q) <==> UpdateSafe(p, i, |t|))
      && (UpdateSafe(p, i, |t|) ==> Replaced(p, q, i, t))
  {
    if UpdateSafe(p, i, |t|) {
      UpdateTiles(p, i, t);
      UpdateKeepsOthers(p, i, t);
    } else {
      var j :| MarkedBelow(p, i, j);
      if |t| < p.slots[i].size { ShrinkBreaks(p, i, t, j); } else { GrowBreaks(p, i, t, j); }
    }
  }

  // ---- Removing a tuple for good ----

  /** Slot j after the bytes of slot i are gone: every used tuple below, marked or not, moves up. */
  function Closed(slots: seq<Slot>, i: nat, j: nat): Slot
    requires i < |slots| && j < |slots|
  {
    if j == i then Slot(0, 0)
    else if slots[j].size != 0 && slots[j].offset < slots[i].offset
    then slots[j].(offset := slots[j].offset + slots[i].Length())
    else slots[j]
  }

  function CloseAll(slots: seq<Slot>, i: nat): (r: seq<Slot>)
    requires i < |slots|
    ensures |r| == |slots| && forall j :: 0 <= j < |slots| ==> r[j] == Closed(slots, i, j)
  {
    seq(|slots|, j requires 0 <= j < |slots| => Closed(slots, i, j))
  }

  function ApplyDelete(p: Page, i: nat): Page
    requires i < |p.slots| && Inside(p, i)
  {
    Page(p.size, CloseAll(p.slots, i), Splice(p, i, []))
  }

  lemma DeleteOther(p: Page, i: nat, j: int)
    requires PageOk(p) && i < |p.slots| && Inside(p, i) && j != i
    ensures SameSlot(p, ApplyDelete(p, i), j)
  {
    if Used(p, j) {
      if Used(p, i) { BytesStay(p, i, j); } else { NothingGone(p, i, j); }
    }
  }

  lemma BytesStay(p: Page, i: nat, j: int)
    requires PageOk(p) && Used(p, i) && Inside(p, i) && j != i && Used(p, j)
    ensures SameSlot(p, ApplyDelete(p, i), j)
  {
    assert Inside(p, j) && Apart(p, i, j);
    SpliceSlices(p, i, [], p.slots[j].offset - Free(p), p.slots[j].End() - Free(p));
    assert ApplyDelete(p, i).slots[j] == Closed(p.slots, i, j);
  }

  lemma NothingGone(p: Page, i: nat, j: int)
    requires PageOk(p) && i < |p.slots| && !Used(p, i) && Inside(p, i) && j != i && Used(p, j)
    ensures SameSlot(p, ApplyDelete(p, i), j)
  {
    assert Inside(p, j) && ApplyDelete(p, i).tail == p.tail;
    assert ApplyDelete(p, i).slots[j] == Closed(p.slots, i, j);
  }

  lemma ApplyDeleteKeepsOthers(p: Page, i: nat)
    requires PageOk(p) && i < |p.slots| && Inside(p, i)
    ensures OthersSame(p, ApplyDelete(p, i), i)
  {
    forall j | j != i ensures SameSlot(p, ApplyDelete(p, i), j) { DeleteOther(p, i, j); }
  }

  /** ApplyDelete empties one slot, closes the gap, and disturbs no other slot, marked ones included. */
  lemma ApplyDeleteOk(p: Page, i: nat)
    requires PageOk(p) && i < |p.slots| && Inside(p, i)
    ensures var q := ApplyDelete(p, i);
      PageOk(q) && q.size == p.size && |q.slots| == |p.slots| && !Used(q, i) && OthersSame(p, q, i)
  {
    var q := ApplyDelete(p, i);
    ApplyDeleteKeepsOthers(p, i);
    forall j | Used(q, j) ensures Inside(q, j) { assert SameSlot(p, q, j); }
    forall j, k | Used(q, j) && Used(q, k) && j != k ensures Apart(q, j, k) {
      assert Apart(p, j, k) && (Used(p, i) ==> Apart(p, i, j) && Apart(p, i, k));
    }
    forall x | Free(q) <= x < q.size ensures Covered(q, x) {
      var y := if x >= p.slots[i].End() then x else x - p.slots[i].Length();
      assert Covered(p, y);
      var k :| Has(p, k, y);
      assert Used(p, i) ==> Apart(p, i, k);
      assert Has(q, k, x);
    }
  }

  /** A page that comes about by two inserts and a mark, on which shrinking the first tuple breaks the tiling. */
  lemma MarkedBelowExample() returns (p: Page)
    ensures var p1 := InsertTuple(Page(PAGE_SIZE, [], []), [1, 1]).1;
            var p2 := InsertTuple(p1, [2, 2]).1;
            p == MarkDelete(p2, 1).1 && PageOk(p)
    ensures Used(p, 0) && Inside(p, 0) && UpdateTuple(p, 0, [3]).0.Updated? && !PageOk(UpdateTuple(p, 0, [3]).1)
  {
    var p0 := Page(PAGE_SIZE, [], []);
    InsertOk(p0, [1, 1]);
    var p1 := InsertTuple(p0, [1, 1]).1;
    assert p1.slots == [Slot(PAGE_SIZE - 2, 2)];
    InsertOk(p1, [2, 2]);
    var p2 := InsertTuple(p1, [2, 2]).1;
    assert p2.slots == [Slot(PAGE_SIZE - 2, 2), Slot(PAGE_SIZE - 4, 2)];
    FlipOk(p2, 1);
    p := MarkDelete(p2, 1).1;
    assert Inside(p, 0);
    UpdateExact(p, 0, [3]);
    assert MarkedBelow(p, 0, 1);
  }
}
