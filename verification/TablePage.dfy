/** The table page as it is stored: one byte buffer with header, slot directory and tuples. */
module TablePageBytes {
  import opened ByteCodec
  import opened SlottedPage
  import opened SlottedUpdate
  import opened HeapCells

  // ---- Directory entries ----

  function SlotAt(b: Bytes, i: nat): Slot
    requires 32 + 8 * i <= |b|
  {
    Slot(ReadInt(b, 24 + 8 * i), ReadInt(b, 28 + 8 * i))
  }

  /** Writing one half of a directory entry. */
  lemma OffsetWritten(b: Bytes, i: nat, v: int, j: nat)
    requires 32 + 8 * i <= |b| && 32 + 8 * j <= |b| && Int32(v)
    ensures SlotAt(WriteInt(b, 24 + 8 * i, v), j) == if j == i then SlotAt(b, i).(offset := v) else SlotAt(b, j)
  {
    ReadWritten(b, 24 + 8 * i, v, 24 + 8 * j);
    ReadWritten(b, 24 + 8 * i, v, 28 + 8 * j);
  }

  lemma SizeWritten(b: Bytes, i: nat, v: int, j: nat)
    requires 32 + 8 * i <= |b| && 32 + 8 * j <= |b| && Int32(v)
    ensures SlotAt(WriteInt(b, 28 + 8 * i, v), j) == if j == i then SlotAt(b, i).(size := v) else SlotAt(b, j)
  {
    ReadWritten(b, 28 + 8 * i, v, 24 + 8 * j);
    ReadWritten(b, 28 + 8 * i, v, 28 + 8 * j);
  }

  lemma SlotBeside(b: Bytes, k: nat, v: int, j: nat)
    requires k + 4 <= |b| && 32 + 8 * j <= |b| && Int32(v) && k + 4 <= 24
    ensures SlotAt(WriteInt(b, k, v), j) == SlotAt(b, j)
  {
    ReadBeside(b, k, v, 24 + 8 * j);
    ReadBeside(b, k, v, 28 + 8 * j);
  }

  // ---- The parts of a stored page ----

  /** The first 16 bytes, the free pointer, the directory, and the bytes from `from` on. */
  datatype Layout = Layout(head: Bytes, free: int, slots: seq<Slot>, from: nat, tail: Bytes)

  datatype Part = Head | FreePointer | Count | Entry(index: nat) | Tuples

  ghost predicate PartIs(b: Bytes, l: Layout, part: Part)
    requires 24 + 8 * |l.slots| <= l.from <= |b|
  {
    match part
    case Head => b[..16] == l.head
    case FreePointer => ReadInt(b, 16) == l.free
    case Count => ReadInt(b, 20) == |l.slots|
    case Entry(i) => i < |l.slots| ==> SlotAt(b, i) == l.slots[i]
    case Tuples => b[l.from..] == l.tail
  }

  ghost predicate Parts(b: Bytes, l: Layout) {
    24 + 8 * |l.slots| <= l.from <= |b| && Int32(|b|) && forall part {:trigger PartIs(b, l, part)} :: PartIs(b, l, part)
  }

  function LayoutOf(p: Page, head: Bytes): Layout
    requires Free(p) >= 0
  {
    Layout(head, Free(p), p.slots, Free(p), p.tail)
  }

  /** The buffer holds page p: its size, free pointer, tuple count, directory and tuple area. */
  ghost predicate Stores(b: Bytes, p: Page) {
    |b| == p.size && Room(p) >= 0 && 16 <= |b| && Parts(b, LayoutOf(p, b[..16]))
  }

  /** A buffer holds at most one page. */
  lemma StoresOne(b: Bytes, p: Page, q: Page)
    requires Stores(b, p) && Stores(b, q)
    ensures p == q
  {
    var l, m := LayoutOf(p, b[..16]), LayoutOf(q, b[..16]);
    assert PartIs(b, l, FreePointer) && PartIs(b, m, FreePointer) && PartIs(b, l, Count) && PartIs(b, m, Count);
    assert PartIs(b, l, Tuples) && PartIs(b, m, Tuples);
    forall i | 0 <= i < |p.slots| ensures p.slots[i] == q.slots[i] {
      assert PartIs(b, l, Entry(i)) && PartIs(b, m, Entry(i));
    }
  }

  lemma ReadHeader(b: Bytes, l: Layout)
    requires Parts(b, l)
    ensures 24 <= |b| && ReadInt(b, 16) == l.free && ReadInt(b, 20) == |l.slots|
  {
    assert PartIs(b, l, FreePointer) && PartIs(b, l, Count);
  }

  lemma ReadEntry(b: Bytes, l: Layout, i: nat)
    requires Parts(b, l) && i < |l.slots|
    ensures 32 + 8 * i <= |b| && SlotAt(b, i) == l.slots[i]
  {
    assert PartIs(b, l, Entry(i));
  }

  lemma WriteFree(b: Bytes, l: Layout, v: int)
    requires Parts(b, l) && Int32(v)
    ensures Parts(WriteInt(b, 16, v), l.(free := v))
  {
    var c, m := WriteInt(b, 16, v), l.(free := v);
    WriteBeside(b, 16, v, 0, 16);
    ReadBeside(b, 16, v, 20);
    WriteBeside(b, 16, v, l.from, |b|);
    forall part ensures PartIs(c, m, part) {
      assert PartIs(b, l, part);
      if part.Entry? && part.index < |l.slots| { SlotBeside(b, 16, v, part.index); }
    }
  }

  lemma WriteOffset(b: Bytes, l: Layout, i: nat, v: int)
    requires Parts(b, l) && i < |l.slots| && Int32(v)
    ensures Parts(WriteInt(b, 24 + 8 * i, v), l.(slots := l.slots[i := l.slots[i].(offset := v)]))
  {
    var k, c, m := 24 + 8 * i, WriteInt(b, 24 + 8 * i, v), l.(slots := l.slots[i := l.slots[i].(offset := v)]);
    WriteBeside(b, k, v, 0, 16);
    ReadBeside(b, k, v, 16);
    ReadBeside(b, k, v, 20);
    WriteBeside(b, k, v, l.from, |b|);
    forall part ensures PartIs(c, m, part) {
      assert PartIs(b, l, part);
      if part.Entry? && part.index < |l.slots| { OffsetWritten(b, i, v, part.index); }
    }
  }

  lemma WriteSize(b: Bytes, l: Layout, i: nat, v: int)
    requires Parts(b, l) && i < |l.slots| && Int32(v)
    ensures Parts(WriteInt(b, 28 + 8 * i, v), l.(slots := l.slots[i := l.slots[i].(size := v)]))
  {
    var k, c, m := 28 + 8 * i, WriteInt(b, 28 + 8 * i, v), l.(slots := l.slots[i := l.slots[i].(size := v)]);
    WriteBeside(b, k, v, 0, 16);
    ReadBeside(b, k, v, 16);
    ReadBeside(b, k, v, 20);
    WriteBeside(b, k, v, l.from, |b|);
    forall part ensures PartIs(c, m, part) {
      assert PartIs(b, l, part);
      if part.Entry? && part.index < |l.slots| { SizeWritten(b, i, v, part.index); }
    }
  }

  /** A write into the gap between directory and tuples changes no part. */
  lemma WriteGap(b: Bytes, l: Layout, k: nat, v: int)
    requires Parts(b, l) && 24 + 8 * |l.slots| <= k && k + 4 <= l.from && Int32(v)
    ensures Parts(WriteInt(b, k, v), l)
  {
    var c := WriteInt(b, k, v);
    WriteBeside(b, k, v, 0, 16);
    ReadBeside(b, k, v, 16);
    ReadBeside(b, k, v, 20);
    WriteBeside(b, k, v, l.from, |b|);
    forall part ensures PartIs(c, l, part) {
      assert PartIs(b, l, part);
      if part.Entry? && part.index < |l.slots| {
        ReadBeside(b, k, v, 24 + 8 * part.index);
        ReadBeside(b, k, v, 28 + 8 * part.index);
      }
    }
  }

  /** The entry just past the end is counted in. */
  lemma WriteCount(b: Bytes, l: Layout, s: Slot)
    requires Parts(b, l) && 32 + 8 * |l.slots| <= l.from && SlotAt(b, |l.slots|) == s
    ensures Parts(WriteInt(b, 20, |l.slots| + 1), l.(slots := l.slots + [s]))
  {
    var n := |l.slots|;
    var c, m := WriteInt(b, 20, n + 1), l.(slots := l.slots + [s]);
    WriteBeside(b, 20, n + 1, 0, 16);
    ReadBeside(b, 20, n + 1, 16);
    WriteBeside(b, 20, n + 1, l.from, |b|);
    forall part ensures PartIs(c, m, part) {
      assert PartIs(b, l, part);
      if part.Entry? && part.index <= n { SlotBeside(b, 20, n + 1, part.index); }
    }
  }

  /** Writing tuple bytes: header and directory stay. */
  lemma WriteTail(b: Bytes, l: Layout, k: nat, t: Bytes, from: nat)
    requires Parts(b, l) && 24 + 8 * |l.slots| <= k && k + |t| <= |b|
    requires 24 + 8 * |l.slots| <= from <= |b|
    ensures Parts(Patch(b, k, t), l.(from := from, tail := Patch(b, k, t)[from..]))
  {
    var c, m := Patch(b, k, t), l.(from := from, tail := Patch(b, k, t)[from..]);
    PatchBeside(b, k, t, 0, 16);
    ReadBesidePatch(b, k, t, 16);
    ReadBesidePatch(b, k, t, 20);
    forall part ensures PartIs(c, m, part) {
      assert PartIs(b, l, part);
      if part.Entry? && part.index < |l.slots| {
        ReadBesidePatch(b, k, t, 24 + 8 * part.index);
        ReadBesidePatch(b, k, t, 28 + 8 * part.index);
      }
    }
  }

  lemma InitParts(b: Bytes)
    requires |b| >= 24 && Int32(|b|)
    ensures var c := WriteInt(WriteInt(b, 16, |b|), 20, 0);
      Parts(c, Layout(b[..16], |b|, [], |b|, [])) && c[..16] == b[..16]
  {
    var d := WriteInt(b, 16, |b|);
    var c, l := WriteInt(d, 20, 0), Layout(b[..16], |b|, [], |b|, []);
    WriteBeside(b, 16, |b|, 0, 16);
    WriteBeside(d, 20, 0, 0, 16);
    ReadBeside(d, 20, 0, 16);
    forall part ensures PartIs(c, l, part) { }
  }

  /** What the two copies of a compaction leave from the new free pointer on. */
  lemma CompactBytes(b: Bytes, free: nat, offset: nat, end: nat, t: Bytes)
    requires free <= offset <= end <= |b| && free + end >= offset + |t|
    ensures var d := end - offset - |t|;
      Patch(Patch(b, free + d, b[free..offset]), offset + d, t)[free + d..] == b[free..offset] + t + b[end..]
  {
    var d := end - offset - |t|;
    var c := Patch(b, free + d, b[free..offset]);
    PatchBeside(c, offset + d, t, free + d, offset + d);
    PatchBeside(b, free + d, b[free..offset], end, |b|);
    var e := Patch(c, offset + d, t);
    assert e[free + d..] == e[free + d..offset + d] + e[offset + d..end] + e[end..];
  }

  /** Writing the free pointer between two copies further up commutes with the second copy. */
  lemma WriteThenPatch(b: Bytes, v: int, k: nat, t: Bytes, from: nat)
    requires 20 <= from <= k && k + |t| <= |b| && Int32(v)
    ensures Patch(WriteInt(b, 16, v), k, t)[from..] == Patch(b, k, t)[from..]
  {
    var c := WriteInt(b, 16, v);
    WriteBeside(b, 16, v, from, k);
    WriteBeside(b, 16, v, k + |t|, |b|);
    assert Patch(c, k, t)[from..] == c[from..k] + t + c[k + |t|..];
    assert Patch(b, k, t)[from..] == b[from..k] + t + b[k + |t|..];
  }

  /** The three writes of a compaction. */
  function Compacted(b: Bytes, free: nat, offset: nat, end: nat, t: Bytes): (r: Bytes)
    requires Int32(|b|) && 20 <= |b| && free <= offset <= end <= |b| && free + end >= offset + |t|
    ensures |r| == |b|
  {
    var free' := free + end - offset - |t|;
    Patch(WriteInt(Patch(b, free', b[free..offset]), 16, free'), end - |t|, t)
  }

  function CompactLayout(i: nat, t: Bytes, p: Page, head: Bytes): Layout
    requires i < |p.slots| && Inside(p, i) && Room(p) >= |t| - p.slots[i].Length()
  {
    var free := Free(p) + p.slots[i].Length() - |t|;
    Layout(head, free, p.slots, free, Splice(p, i, t))
  }

  lemma CompactParts(b: Bytes, i: nat, t: Bytes, p: Page, head: Bytes)
    requires |head| == 16 && i < |p.slots| && Inside(p, i) && Free(p) >= 0 && |b| == p.size
    requires Room(p) >= |t| - p.slots[i].Length() && Parts(b, LayoutOf(p, head))
    ensures Parts(Compacted(b, Free(p), p.slots[i].offset, p.slots[i].End(), t), CompactLayout(i, t, p, head))
  {
    var free, offset, end := Free(p), p.slots[i].offset, p.slots[i].End();
    var free' := free + end - offset - |t|;
    var l := LayoutOf(p, head);
    CompactBytes(b, free, offset, end, t);
    assert PartIs(b, l, Tuples);
    SpliceBytes(b, i, t, p);
    WriteTail(b, l, free', b[free..offset], free');
    var c := Patch(b, free', b[free..offset]);
    WriteFree(c, l.(from := free', tail := c[free'..]), free');
    WriteTail(WriteInt(c, 16, free'), l.(free := free', from := free', tail := c[free'..]), end - |t|, t, free');
    WriteThenPatch(c, free', end - |t|, t, free');
  }

  lemma TupleBytes(b: Bytes, p: Page, i: nat)
    requires Used(p, i) && Inside(p, i) && Stores(b, p)
    ensures b[p.slots[i].offset..p.slots[i].End()] == TupleAt(p, i)
  {
    assert PartIs(b, LayoutOf(p, b[..16]), Tuples);
    TailSlice(b, Free(p), p.slots[i].offset, p.slots[i].End());
  }

  lemma TailSlice(b: Bytes, f: nat, i: nat, j: nat)
    requires f <= i <= j <= |b|
    ensures b[f..][i - f..j - f] == b[i..j]
  {
  }

  lemma SpliceBytes(b: Bytes, i: nat, t: Bytes, p: Page)
    requires i < |p.slots| && Inside(p, i) && Free(p) >= 0 && |b| == p.size && b[Free(p)..] == p.tail
    ensures Splice(p, i, t) == b[Free(p)..p.slots[i].offset] + t + b[p.slots[i].End()..]
  {
    TailSlice(b, Free(p), Free(p), p.slots[i].offset);
    TailSlice(b, Free(p), p.slots[i].End(), |b|);
  }

  /** The directory half-way through an update's fix-up loop. */
  function HalfShifted(slots: seq<Slot>, i: nat, n: nat, j: nat): seq<Slot>
    requires i < |slots| && j <= |slots|
  {
    ShiftAll(slots, i, n)[..j] + slots[i := slots[i].(size := n)][j..]
  }

  function HalfClosed(slots: seq<Slot>, i: nat, j: nat): seq<Slot>
    requires i < |slots| && j <= |slots|
  {
    CloseAll(slots, i)[..j] + slots[i := Slot(0, 0)][j..]
  }

  lemma OneMore<T>(a: seq<T>, b: seq<T>, j: nat)
    requires |a| == |b| && j < |a|
    ensures (a[..j] + b[j..])[j] == b[j]
    ensures a[..j + 1] + b[j + 1..] == (a[..j] + b[j..])[j := a[j]]
  {
  }

  lemma HalfShiftedStep(p: Page, i: nat, n: nat, j: nat)
    requires PageOk(p) && i < |p.slots| && j < |p.slots| && p.slots[i].size > 0 && Int32(p.size)
      && Room(p) >= n - p.slots[i].size
    ensures var slots := HalfShifted(p.slots, i, n, j);
      var s, end, d := slots[j], p.slots[i].offset + p.slots[i].size, p.slots[i].size - n;
      && (s.size > 0 && s.offset < end ==> Int32(s.offset + d))
      && HalfShifted(p.slots, i, n, j + 1)
         == slots[j := if s.size > 0 && s.offset < end then s.(offset := s.offset + d) else s]
  {
    var slots := HalfShifted(p.slots, i, n, j);
    assert Inside(p, i) && (Used(p, j) ==> Inside(p, j));
    assert Used(p, j) && j != i ==> Apart(p, i, j);
    OneMore(ShiftAll(p.slots, i, n), p.slots[i := p.slots[i].(size := n)], j);
    assert slots[j] == if j == i then p.slots[i].(size := n) else p.slots[j];
  }

  lemma HalfClosedStep(p: Page, i: nat, j: nat)
    requires PageOk(p) && i < |p.slots| && j < |p.slots| && Inside(p, i) && Int32(p.size)
    ensures var slots := HalfClosed(p.slots, i, j);
      var s, size := slots[j], p.slots[i].Length();
      && (s.size != 0 && s.offset < p.slots[i].offset ==> Int32(s.offset + size))
      && HalfClosed(p.slots, i, j + 1)
         == slots[j := if s.size != 0 && s.offset < p.slots[i].offset then s.(offset := s.offset + size) else s]
  {
    var slots := HalfClosed(p.slots, i, j);
    assert Used(p, j) ==> Inside(p, j);
    OneMore(CloseAll(p.slots, i), p.slots[i := Slot(0, 0)], j);
    assert slots[j] == if j == i then Slot(0, 0) else p.slots[j];
  }

  class TablePage {
    const data: array<Byte>

    /** The page stored in the buffer is p. */
    ghost predicate Is(p: Page)
      reads this, data
    {
      Stores(data[..], p)
    }

    lemma StoredWith(p: Page, head: Bytes)
      requires Room(p) >= 0 && data.Length == p.size && Parts(data[..], LayoutOf(p, head))
      ensures Is(p) && data[..16] == head
    {
      assert PartIs(data[..], LayoutOf(p, head), Head);
    }

    constructor (size: nat)
      requires size >= 24 && Int32(size)
      ensures Is(Page(size, [], [])) && fresh(data)
    {
      data := new Byte[size];
      new;
      Init();
    }

    /** Init: no tuples, the free pointer at the end. */
    method Init()
      requires data.Length >= 24 && Int32(data.Length)
      modifies data
      ensures Is(Page(data.Length, [], [])) && data[..16] == old(data[..16])
    {
      ghost var b := data[..];
      SetInt(16, data.Length);
      SetInt(20, 0);
      InitParts(b);
      assert data[..][..16] == data[..16];
    }

    function GetInt(k: nat): (v: int)
      requires k + 4 <= data.Length
      reads data
    {
      ReadInt(data[..], k)
    }

    method SetInt(k: nat, v: int)
      requires k + 4 <= data.Length && Int32(v)
      modifies data
      ensures data[..] == WriteInt(old(data[..]), k, v)
    {
      CopyIn(data, k, EncodeInt(v));
    }

    method SetTupleOffset(i: nat, v: int, ghost l: Layout)
      requires Parts(data[..], l) && i < |l.slots| && Int32(v)
      modifies data
      ensures Parts(data[..], l.(slots := l.slots[i := l.slots[i].(offset := v)]))
    {
      WriteOffset(data[..], l, i, v);
      SetInt(24 + 8 * i, v);
    }

    method SetTupleSize(i: nat, v: int, ghost l: Layout)
      requires Parts(data[..], l) && i < |l.slots| && Int32(v)
      modifies data
      ensures Parts(data[..], l.(slots := l.slots[i := l.slots[i].(size := v)]))
    {
      WriteSize(data[..], l, i, v);
      SetInt(28 + 8 * i, v);
    }

    /** The slot to reuse, or the slot count. */
    method FindEmptySlot(ghost p: Page) returns (i: nat)
      requires Is(p)
      ensures i == FirstEmpty(p.slots)
    {
      ghost var l := LayoutOf(p, data[..16]);
      ReadHeader(data[..], l);
      var n := GetInt(20);
      i := 0;
      while i < n
        invariant i <= n && forall j :: 0 <= j < i ==> p.slots[j].size != 0
      {
        ReadEntry(data[..], l, i);
        if GetInt(28 + 8 * i) == 0 {
          break;
        }
        i := i + 1;
      }
    }

    method SetFreeSpacePointer(v: int, ghost l: Layout)
      requires Parts(data[..], l) && Int32(v)
      modifies data
      ensures Parts(data[..], l.(free := v))
    {
      WriteFree(data[..], l, v);
      SetInt(16, v);
    }

    /** The tuple's bytes go in front of the tuple area. */
    method PlaceTuple(k: nat, t: Bytes, ghost l: Layout)
      requires Parts(data[..], l) && 24 + 8 * |l.slots| <= k && k + |t| == l.from
      modifies data
      ensures Parts(data[..], l.(from := k, tail := t + l.tail))
    {
      ghost var b := data[..];
      WriteTail(b, l, k, t, k);
      assert PartIs(b, l, Tuples);
      assert Patch(b, k, t)[k..] == t + l.tail;
      CopyIn(data, k, t);
    }

    /** The entry past the end of the directory. */
    method SetNewSlot(s: Slot, ghost l: Layout)
      requires Parts(data[..], l) && 32 + 8 * |l.slots| <= l.from && Int32(s.offset) && Int32(s.size)
      modifies data
      ensures Parts(data[..], l) && SlotAt(data[..], |l.slots|) == s
    {
      ReadHeader(data[..], l);
      var n := GetInt(20);
      WriteGap(data[..], l, 24 + 8 * n, s.offset);
      OffsetWritten(data[..], n, s.offset, n);
      SetInt(24 + 8 * n, s.offset);
      WriteGap(data[..], l, 28 + 8 * n, s.size);
      SizeWritten(data[..], n, s.size, n);
      SetInt(28 + 8 * n, s.size);
    }

    method AddSlot(s: Slot, ghost l: Layout)
      requires Parts(data[..], l) && 32 + 8 * |l.slots| <= l.from && Int32(s.offset) && Int32(s.size)
      modifies data
      ensures Parts(data[..], l.(slots := l.slots + [s]))
    {
      SetNewSlot(s, l);
      ReadHeader(data[..], l);
      var n := GetInt(20);
      WriteCount(data[..], l, s);
      SetInt(20, n + 1);
    }

    method InsertTuple(t: Bytes, ghost p: Page) returns (r: Inserted)
      requires Is(p) && |t| > 0
      modifies data
      ensures r == SlottedPage.InsertTuple(p, t).0 && Is(SlottedPage.InsertTuple(p, t).1)
      ensures data[..16] == old(data[..16])
    {
      ghost var head := data[..16];
      ghost var l := LayoutOf(p, head);
      ReadHeader(data[..], l);
      var free, n := GetInt(16), GetInt(20);
      if free - 24 - 8 * n < |t| {
        return Full;
      }
      var i := FindEmptySlot(p);
      if i == n && free - 24 - 8 * n < |t| + 8 {
        return Full;
      }
      SetFreeSpacePointer(free - |t|, l);
      PlaceTuple(free - |t|, t, l.(free := free - |t|));
      l := Layout(head, free - |t|, p.slots, free - |t|, t + p.tail);
      PutSlot(i, Slot(free - |t|, |t|), l);
      StoredWith(SlottedPage.InsertTuple(p, t).1, head);
      r := In(i);
    }

    method PutSlot(i: nat, s: Slot, ghost l: Layout)
      requires Parts(data[..], l) && i <= |l.slots| && (i == |l.slots| ==> 32 + 8 * i <= l.from) && Int32(s.offset)
        && Int32(s.size)
      modifies data
      ensures Parts(data[..], l.(slots := Put(l.slots, i, s)))
    {
      ReadHeader(data[..], l);
      if i < GetInt(20) {
        SetTupleOffset(i, s.offset, l);
        ghost var m := l.(slots := l.slots[i := l.slots[i].(offset := s.offset)]);
        SetTupleSize(i, s.size, m);
        assert m.slots[i := m.slots[i].(size := s.size)] == Put(l.slots, i, s);
      } else {
        AddSlot(s, l);
      }
    }

    method MarkDelete(i: nat, ghost p: Page) returns (ok: bool)
      requires Is(p)
      modifies data
      ensures ok == SlottedPage.MarkDelete(p, i).0 && Is(SlottedPage.MarkDelete(p, i).1)
      ensures data[..16] == old(data[..16])
    {
      ghost var l := LayoutOf(p, data[..16]);
      ReadHeader(data[..], l);
      if i >= GetInt(20) {
        return false;
      }
      ReadEntry(data[..], l, i);
      var size := GetInt(28 + 8 * i);
      if size < 0 {
        return false;
      }
      if size > 0 {
        SetTupleSize(i, -size, l);
        StoredWith(SlottedPage.MarkDelete(p, i).1, l.head);
      } else {
        assert p.slots[i := p.slots[i].(size := -p.slots[i].size)] == p.slots;
      }
      return true;
    }

    /** RollbackDelete turns the sign back. The most negative 32-bit size, which cannot be turned, never marks a
      * tuple. */
    method RollbackDelete(i: nat, ghost p: Page)
      requires Is(p) && i < |p.slots| && p.slots[i].size > -0x8000_0000
      modifies data
      ensures Is(SlottedPage.RollbackDelete(p, i)) && data[..16] == old(data[..16])
    {
      ghost var l := LayoutOf(p, data[..16]);
      ReadEntry(data[..], l, i);
      var size := GetInt(28 + 8 * i);
      if size < 0 {
        SetTupleSize(i, -size, l);
        StoredWith(SlottedPage.RollbackDelete(p, i), l.head);
      }
    }

    method CopyOut(offset: int, end: int, ghost i: nat, ghost p: Page) returns (t: Bytes)
      requires Is(p) && Used(p, i) && Inside(p, i) && offset == p.slots[i].offset && end == p.slots[i].End()
      ensures t == TupleAt(p, i)
    {
      TupleBytes(data[..], p, i);
      t := data[offset..end];
      assert t == data[..][offset..end];
    }

    /** GetTuple returns the bytes of a live tuple; an empty slot and a tuple marked as deleted are not found. */
    method GetTuple(i: nat, ghost p: Page) returns (r: Tuple)
      requires Is(p) && PageOk(p)
      ensures r == SlottedPage.GetTuple(p, i)
      ensures r == match CellAt(p, i) case Live(b) => Some(b) case _ => Nothing
    {
      ghost var l := LayoutOf(p, data[..16]);
      GetFindsLive(p, i, if CellAt(p, i).Live? then CellAt(p, i).bytes else []);
      ReadHeader(data[..], l);
      if i >= GetInt(20) {
        return Nothing;
      }
      ReadEntry(data[..], l, i);
      var size := GetInt(28 + 8 * i);
      if size <= 0 {
        return Nothing;
      }
      var offset := GetInt(24 + 8 * i);
      assert Inside(p, i);
      var t := CopyOut(offset, offset + size, i, p);
      return Some(t);
    }

    /** memmove of the tuples below, the new free pointer, and the new bytes. */
    method Compact(free: int, offset: int, end: int, t: Bytes, ghost i: nat, ghost p: Page, ghost head: Bytes)
      requires |head| == 16 && i < |p.slots| && Inside(p, i) && Free(p) >= 0 && |data[..]| == p.size
      requires free == Free(p) && offset == p.slots[i].offset && end == p.slots[i].End()
        && Room(p) >= |t| - (end - offset)
      requires Parts(data[..], LayoutOf(p, head))
      modifies data
      ensures Parts(data[..], CompactLayout(i, t, p, head))
    {
      CompactParts(data[..], i, t, p, head);
      MoveTuples(free, offset, end, t);
    }

    method MoveTuples(free: nat, offset: nat, end: nat, t: Bytes)
      requires Int32(data.Length) && 20 <= data.Length && free <= offset <= end <= data.Length
        && free + end >= offset + |t|
      modifies data
      ensures data[..] == Compacted(old(data[..]), free, offset, end, t)
    {
      var moved := data[free..offset];
      assert moved == data[..][free..offset];
      CopyIn(data, free + end - offset - |t|, moved);
      SetInt(16, free + end - offset - |t|);
      CopyIn(data, end - |t|, t);
    }

    /** One turn of the update's fix-up loop. */
    method ShiftOne(j: nat, end: int, d: int, ghost l: Layout)
      requires Parts(data[..], l) && j < |l.slots|
      requires l.slots[j].size > 0 && l.slots[j].offset < end ==> Int32(l.slots[j].offset + d)
      modifies data
      ensures var s := l.slots[j]; var s' := if s.size > 0 && s.offset < end then s.(offset := s.offset + d) else s;
        Parts(data[..], l.(slots := l.slots[j := s']))
    {
      ReadEntry(data[..], l, j);
      var offset_j := GetInt(24 + 8 * j);
      if GetInt(28 + 8 * j) > 0 && offset_j < end {
        SetTupleOffset(j, offset_j + d, l);
      } else {
        assert l.slots[j := l.slots[j]] == l.slots;
      }
    }

    /** One turn of the delete's fix-up loop. */
    method CloseOne(j: nat, offset: int, size: int, ghost l: Layout)
      requires Parts(data[..], l) && j < |l.slots|
      requires l.slots[j].size != 0 && l.slots[j].offset < offset ==> Int32(l.slots[j].offset + size)
      modifies data
      ensures var s := l.slots[j];
        var s' := if s.size != 0 && s.offset < offset then s.(offset := s.offset + size) else s;
        Parts(data[..], l.(slots := l.slots[j := s']))
    {
      ReadEntry(data[..], l, j);
      var offset_j := GetInt(24 + 8 * j);
      if GetInt(28 + 8 * j) != 0 && offset_j < offset {
        SetTupleOffset(j, offset_j + size, l);
      } else {
        assert l.slots[j := l.slots[j]] == l.slots;
      }
    }

    /** The update's fix-up loop. */
    method ShiftOffsets(offset: int, size: int, n: nat, ghost i: nat, ghost p: Page, ghost l: Layout)
      requires PageOk(p) && i < |p.slots| && p.slots[i] == Slot(offset, size) && size > 0 && Int32(p.size)
        && Room(p) >= n - size
      requires Parts(data[..], l) && l.slots == p.slots[i := p.slots[i].(size := n)]
      modifies data
      ensures Parts(data[..], l.(slots := ShiftAll(p.slots, i, n)))
    {
      ReadHeader(data[..], l);
      var count := GetInt(20);
      var j := 0;
      assert HalfShifted(p.slots, i, n, 0) == l.slots;
      while j < count
        invariant j <= count == |p.slots|
        invariant Parts(data[..], l.(slots := HalfShifted(p.slots, i, n, j)))
      {
        ghost var slots := HalfShifted(p.slots, i, n, j);
        HalfShiftedStep(p, i, n, j);
        ShiftOne(j, offset + size, size - n, l.(slots := slots));
        j := j + 1;
      }
      assert HalfShifted(p.slots, i, n, count) == ShiftAll(p.slots, i, n);
    }

    /** UpdateTuple hands out the old bytes and rewrites the page, or changes nothing. */
    method UpdateTuple(i: nat, t: Bytes, ghost p: Page) returns (r: Updated)
      requires Is(p) && PageOk(p) && (i < |p.slots| && p.slots[i].size > 0 ==> Inside(p, i)) && Int32(|t|)
      modifies data
      ensures r == SlottedUpdate.UpdateTuple(p, i, t).0 && Is(SlottedUpdate.UpdateTuple(p, i, t).1)
      ensures data[..16] == old(data[..16])
    {
      ghost var l := LayoutOf(p, data[..16]);
      ReadHeader(data[..], l);
      var free, n := GetInt(16), GetInt(20);
      if i >= n {
        return NotUpdated;
      }
      ReadEntry(data[..], l, i);
      var size, offset := GetInt(28 + 8 * i), GetInt(24 + 8 * i);
      if size <= 0 || free - 24 - 8 * n < |t| - size {
        return NotUpdated;
      }
      var before := CopyOut(offset, offset + size, i, p);
      Rewrite(i, free, offset, size, t, p, l.head);
      StoredWith(SlottedUpdate.UpdateTuple(p, i, t).1, l.head);
      r := Updated(before);
    }

    /** The update proper: move the tuples below, store the new one, fix the directory. */
    method Rewrite(i: nat, free: int, offset: int, size: int, t: Bytes, ghost p: Page, ghost head: Bytes)
      requires PageOk(p) && data.Length == p.size && Int32(p.size) && |head| == 16 && Parts(data[..], LayoutOf(p, head))
        && Int32(|t|)
      requires i < |p.slots| && p.slots[i] == Slot(offset, size) && size > 0 && free == Free(p) && Room(p) >= |t| - size
        && Inside(p, i)
      modifies data
      ensures Parts(data[..], CompactLayout(i, t, p, head).(slots := ShiftAll(p.slots, i, |t|)))
    {
      assert offset >= free;
      Compact(free, offset, offset + size, t, i, p, head);
      ghost var l := CompactLayout(i, t, p, head);
      SetTupleSize(i, |t|, l);
      l := l.(slots := p.slots[i := p.slots[i].(size := |t|)]);
      ShiftOffsets(offset, size, |t|, i, p, l);
    }

    method CloseOffsets(offset: int, size: int, ghost i: nat, ghost p: Page, ghost l: Layout)
      requires PageOk(p) && i < |p.slots| && Inside(p, i) && offset == p.slots[i].offset && size == p.slots[i].Length()
        && Int32(p.size)
      requires Parts(data[..], l) && l.slots == p.slots[i := Slot(0, 0)]
      modifies data
      ensures Parts(data[..], l.(slots := CloseAll(p.slots, i)))
    {
      ReadHeader(data[..], l);
      var count := GetInt(20);
      var j := 0;
      assert HalfClosed(p.slots, i, 0) == l.slots;
      while j < count
        invariant j <= count == |p.slots|
        invariant Parts(data[..], l.(slots := HalfClosed(p.slots, i, j)))
      {
        ghost var slots := HalfClosed(p.slots, i, j);
        HalfClosedStep(p, i, j);
        CloseOne(j, offset, size, l.(slots := slots));
        j := j + 1;
      }
      assert HalfClosed(p.slots, i, count) == CloseAll(p.slots, i);
    }

    method ClearSlot(i: nat, ghost l: Layout)
      requires Parts(data[..], l) && i < |l.slots|
      modifies data
      ensures Parts(data[..], l.(slots := l.slots[i := Slot(0, 0)]))
    {
      SetTupleSize(i, 0, l);
      ghost var m := l.(slots := l.slots[i := l.slots[i].(size := 0)]);
      SetTupleOffset(i, 0, m);
      assert m.slots[i := m.slots[i].(offset := 0)] == l.slots[i := Slot(0, 0)];
    }

    /** ApplyDelete removes a tuple for good; its assertion on the offset is the precondition Inside. */
    method ApplyDelete(i: nat, ghost p: Page)
      requires Is(p) && PageOk(p) && i < |p.slots| && Inside(p, i)
      modifies data
      ensures Is(SlottedUpdate.ApplyDelete(p, i)) && data[..16] == old(data[..16])
    {
      ghost var l := LayoutOf(p, data[..16]);
      ReadHeader(data[..], l);
      ReadEntry(data[..], l, i);
      var offset, size := GetInt(24 + 8 * i), GetInt(28 + 8 * i);
      if size < 0 {
        size := -size;
      }
      var free := GetInt(16);
      TakeAway(i, free, offset, size, p, l.head);
      StoredWith(SlottedUpdate.ApplyDelete(p, i), l.head);
    }

    /** The removal proper: move the tuples below, clear the slot, fix the directory. */
    method TakeAway(i: nat, free: int, offset: int, size: int, ghost p: Page, ghost head: Bytes)
      requires PageOk(p) && data.Length == p.size && Int32(p.size) && |head| == 16 && Parts(data[..], LayoutOf(p, head))
      requires i < |p.slots| && Inside(p, i) && offset == p.slots[i].offset && size == p.slots[i].Length()
        && free == Free(p)
      modifies data
      ensures Parts(data[..], CompactLayout(i, [], p, head).(slots := CloseAll(p.slots, i)))
    {
      assert offset >= free;
      Compact(free, offset, offset + size, [], i, p, head);
      ghost var l := CompactLayout(i, [], p, head);
      ClearSlot(i, l);
      l := l.(slots := p.slots[i := Slot(0, 0)]);
      CloseOffsets(offset, size, i, p, l);
    }
  }
}
