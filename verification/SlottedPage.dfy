/** A slotted table page: a slot directory growing up, tuples growing down from the end of the page. */
module SlottedPage {

  import opened ByteCodec

  /** Size zero is an empty slot, a negative size a tuple marked as deleted. */
  datatype Slot = Slot(offset: int, size: int) {
    function Length(): nat { if size < 0 then -size else size }
    function End(): int { offset + Length() }
  }

  /** `tail` is the tuple area: the bytes from the free-space pointer to the end of the page. */
  datatype Page = Page(size: nat, slots: seq<Slot>, tail: Bytes)

  function Free(p: Page): int { p.size - |p.tail| }

  /** The room between the slot directory and the tuples. */
  function Room(p: Page): int { Free(p) - 24 - 8 * |p.slots| }

  predicate Used(p: Page, i: int) {
    0 <= i < |p.slots| && p.slots[i].size != 0
  }

  // ---- The tuples tile the tuple area ----

  predicate Inside(p: Page, i: int)
    requires 0 <= i < |p.slots|
  {
    Free(p) <= p.slots[i].offset && p.slots[i].End() <= p.size
  }

  predicate Apart(p: Page, i: int, j: int)
    requires 0 <= i < |p.slots| && 0 <= j < |p.slots|
  {
    p.slots[i].End() <= p.slots[j].offset || p.slots[j].End() <= p.slots[i].offset
  }

  predicate Has(p: Page, i: int, x: int) {
    Used(p, i) && p.slots[i].offset <= x < p.slots[i].End()
  }

  ghost predicate Covered(p: Page, x: int) {
    exists i {:trigger Has(p, i, x)} :: Has(p, i, x)
  }

  ghost predicate PageOk(p: Page) {
    && Room(p) >= 0
    && (forall i {:trigger Inside(p, i)} :: Used(p, i) ==> Inside(p, i))
    && (forall i, j {:trigger Apart(p, i, j)} :: Used(p, i) && Used(p, j) && i != j ==> Apart(p, i, j))
    && (forall x {:trigger Covered(p, x)} :: Free(p) <= x < p.size ==> Covered(p, x))
  }

  /** The bytes of a used slot. */
  function TupleAt(p: Page, i: int): (r: Bytes)
    requires Used(p, i) && Inside(p, i)
    ensures |r| == p.slots[i].Length()
  {
    p.tail[p.slots[i].offset - Free(p)..p.slots[i].End() - Free(p)]
  }

  /** Slot i of q is as slot i of p: same size and, if used, the same bytes. */
  ghost predicate SameSlot(p: Page, q: Page, i: int) {
    (Used(p, i) <==> Used(q, i))
    && (Used(p, i) ==>
       q.slots[i].size == p.slots[i].size && Inside(p, i) && Inside(q, i) && TupleAt(q, i) == TupleAt(p, i))
  }

  ghost predicate OthersSame(p: Page, q: Page, i: int) {
    forall j {:trigger SameSlot(p, q, j)} :: j != i ==> SameSlot(p, q, j)
  }

  // ---- Insert ----

  function FirstEmpty(slots: seq<Slot>): (i: nat)
    ensures i <= |slots| && (i < |slots| ==> slots[i].size == 0)
    ensures forall j :: 0 <= j < i ==> slots[j].size != 0
  {
    if slots == [] || slots[0].size == 0 then 0 else 1 + FirstEmpty(slots[1..])
  }

  function Put(slots: seq<Slot>, i: nat, s: Slot): seq<Slot>
    requires i <= |slots|
  {
    if i < |slots| then slots[i := s] else slots + [s]
  }

  datatype Inserted = Full | In(slot: nat)

  function InsertTuple(p: Page, t: Bytes): (Inserted, Page) {
    var i := FirstEmpty(p.slots);
    if Room(p) < |t| || (i == |p.slots| && Room(p) < |t| + 8) then (Full, p)
    else (In(i), Page(p.size, Put(p.slots, i, Slot(Free(p) - |t|, |t|)), t + p.tail))
  }

  /** An insert is refused exactly if the bytes do not fit, or not with a directory entry when no slot is empty. A
    * refused insert changes nothing, any other goes to the first empty slot, or to a new one when there is none. */
  lemma InsertRefused(p: Page, t: Bytes)
    ensures InsertTuple(p, t).0 == Full <==>
      Room(p) < |t| || (Room(p) < |t| + 8 && forall i :: 0 <= i < |p.slots| ==> Used(p, i))
    ensures match InsertTuple(p, t).0
      case Full => InsertTuple(p, t).1 == p
      case In(slot) => slot <= |p.slots| && !Used(p, slot) && forall i :: 0 <= i < slot ==> Used(p, i)
  {
    var i := FirstEmpty(p.slots);
    if i < |p.slots| { assert !Used(p, i); }
  }

  /** A successful insert puts the tuple into a slot that was empty and disturbs no other slot. */
  lemma InsertOk(p: Page, t: Bytes)
    requires PageOk(p) && |t| > 0
    ensures var (r, q) := InsertTuple(p, t);
      && PageOk(q) && q.size == p.size
      && (r.In? ==>
         && !Used(p, r.slot) && Used(q, r.slot) && q.slots[r.slot].size == |t|
         && Inside(q, r.slot) && TupleAt(q, r.slot) == t && OthersSame(p, q, r.slot))
  {
    var q := InsertTuple(p, t).1;
    if InsertTuple(p, t).0.In? {
      var i := FirstEmpty(p.slots);
      forall j | j != i ensures SameSlot(p, q, j) {
        if Used(p, j) {
          assert Inside(p, j);
          assert TupleAt(q, j) == TupleAt(p, j);
        }
      }
      forall j | Used(q, j) ensures Inside(q, j) { assert SameSlot(p, q, j) || j == i; }
      forall j, k | Used(q, j) && Used(q, k) && j != k ensures Apart(q, j, k) {
        if j != i { assert Inside(p, j); }
        if k != i { assert Inside(p, k); }
        if j != i && k != i { assert Apart(p, j, k); }
      }
      forall x | Free(q) <= x < q.size ensures Covered(q, x) {
        if x < Free(p) {
          assert Has(q, i, x);
        } else {
          assert Covered(p, x);
          var j :| Has(p, j, x);
          assert Has(q, j, x);
        }
      }
      assert TupleAt(q, i) == t;
    }
  }

  // ---- Marking, unmarking, reading ----

  function MarkDelete(p: Page, i: nat): (bool, Page) {
    if i >= |p.slots| || p.slots[i].size < 0 then (false, p)
    else (true, p.(slots := p.slots[i := p.slots[i].(size := -p.slots[i].size)]))
  }

  function RollbackDelete(p: Page, i: nat): Page
    requires i < |p.slots|
  {
    if p.slots[i].size < 0 then p.(slots := p.slots[i := p.slots[i].(size := -p.slots[i].size)]) else p
  }

  /** Turning a slot's sign leaves its bytes and everything else in place. */
  lemma FlipOk(p: Page, i: nat)
    requires PageOk(p) && i < |p.slots|
    ensures var q := p.(slots := p.slots[i := p.slots[i].(size := -p.slots[i].size)]);
      && PageOk(q) && OthersSame(p, q, i)
      && (Used(p, i) ==> Used(q, i) && Inside(p, i) && Inside(q, i) && TupleAt(q, i) == TupleAt(p, i))
  {
    var q := p.(slots := p.slots[i := p.slots[i].(size := -p.slots[i].size)]);
    forall j ensures (Used(p, j) <==> Used(q, j))
      && (Used(p, j) ==> Inside(p, j) && Inside(q, j) && TupleAt(q, j) == TupleAt(p, j)) {
      assert Used(p, j) ==> Inside(p, j);
    }
    forall j | j != i ensures SameSlot(p, q, j) { }
    forall j, k | Used(q, j) && Used(q, k) && j != k ensures Apart(q, j, k) { assert Apart(p, j, k); }
    forall x | Free(q) <= x < q.size ensures Covered(q, x) {
      assert Covered(p, x);
      var j :| Has(p, j, x);
      assert Has(q, j, x);
    }
  }

  datatype Tuple = Nothing | Some(bytes: Bytes)

  ghost function GetTuple(p: Page, i: nat): Tuple
    requires PageOk(p)
  {
    if i < |p.slots| && p.slots[i].size > 0 then
      assert Inside(p, i);
      Some(TupleAt(p, i))
    else Nothing
  }
}
