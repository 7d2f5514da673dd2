/** The buffer pool as a value: frames, free list, replacer order, page table and the disk behind them. */
module BufferPool {
  import opened Config
  import opened ByteCodec
  import opened LruReplacer

  const MAX_PAGES: nat := 0x8000_0000

  function Zeros(): (r: Bytes)
    ensures |r| == PAGE_SIZE && forall i :: 0 <= i < PAGE_SIZE ==> r[i] == 0
  {
    seq(PAGE_SIZE, _ => 0)
  }

  datatype Frame = Frame(pageId: int, dirty: bool, pin: int, data: Bytes)

  /** The file is a run of pages; `next` is the allocation counter. */
  datatype Pool = Pool(frames: seq<Frame>, free: seq<int>, lru: seq<int>, table: map<int, int>, disk: seq<Bytes>,
    next: nat)

  /** Reading at the end of the file gives zeros, further out it leaves the buffer alone. */
  function ReadPage(disk: seq<Bytes>, p: nat, buffer: Bytes): Bytes {
    if p < |disk| then disk[p] else if p == |disk| then Zeros() else buffer
  }

  /** Writing past the end of the file fills the gap with zeros. */
  function WritePage(disk: seq<Bytes>, p: nat, data: Bytes): (r: seq<Bytes>)
    ensures p < |r| && r[p] == data
    ensures |r| == (if p < |disk| then |disk| else p + 1)
    ensures forall q :: 0 <= q < |r| && q != p ==> r[q] == if q < |disk| then disk[q] else Zeros()
  {
    if p < |disk| then disk[p := data] else disk + seq(p - |disk|, _ => Zeros()) + [data]
  }

  // ---- Where every frame is ----

  /** A frame is in exactly one of the free list, the replacer and the pinned frames. */
  ghost predicate Placed(s: Pool, i: int)
    requires 0 <= i < |s.frames|
  {
    && s.frames[i].pin >= 0
    && (i in s.free ==> i !in s.lru && s.frames[i].pin == 0)
    && (i in s.lru ==> s.frames[i].pin == 0)
    && (i !in s.free && i !in s.lru ==> s.frames[i].pin > 0)
  }

  /** The page table leads to the frame that holds the page; a free frame holds none. */
  ghost predicate Resident(s: Pool, i: int)
    requires 0 <= i < |s.frames|
  {
    if i in s.free then s.frames[i].pageId == INVALID_PAGE_ID && !s.frames[i].dirty
    else 0 <= s.frames[i].pageId < s.next && s.frames[i].pageId in s.table && s.table[s.frames[i].pageId] == i
  }

  ghost predicate TableAt(s: Pool, p: int)
    requires p in s.table
  {
    0 <= s.table[p] < |s.frames| && s.table[p] !in s.free && s.frames[s.table[p]].pageId == p
  }

  ghost predicate FramesOk(s: Pool) {
    && (forall i {:trigger Placed(s, i)} :: 0 <= i < |s.frames| ==> Placed(s, i))
    && (forall i {:trigger Resident(s, i)} :: 0 <= i < |s.frames| ==> Resident(s, i))
    && (forall p {:trigger TableAt(s, p)} :: p in s.table ==> TableAt(s, p))
  }

  ghost predicate Ok(s: Pool) {
    && FramesOk(s) && NoDuplicates(s.free) && NoDuplicates(s.lru) && s.next <= MAX_PAGES
    && (forall i :: i in s.free || i in s.lru ==> 0 <= i < |s.frames|)
  }

  // ---- The operations ----

  datatype Got = NoPage | At(frame: int)

  /** A frame to reuse: the free list first, then the least recently unpinned. */
  function Take(s: Pool): (Got, Pool) {
    if s.free != [] then (At(s.free[0]), s.(free := s.free[1..]))
    else if s.lru != [] then (At(s.lru[0]), s.(lru := Apply(s.lru, DoVictim)))
    else (NoPage, s)
  }

  function WriteBack(s: Pool, i: int): Pool
    requires 0 <= i < |s.frames|
  {
    var f := s.frames[i];
    if f.dirty && f.pageId >= 0 then s.(disk := WritePage(s.disk, f.pageId, f.data)) else s
  }

  /** Frame i now holds page p, pinned once. */
  function Occupy(s: Pool, i: int, p: int, data: Bytes): Pool
    requires 0 <= i < |s.frames|
  {
    s.(table := (s.table - {s.frames[i].pageId})[p := i], frames := s.frames[i := Frame(p, false, 1, data)])
  }

  ghost function PinMore(s: Pool, i: int): Pool
    requires 0 <= i < |s.frames|
  {
    s.(frames := s.frames[i := s.frames[i].(pin := s.frames[i].pin + 1)], lru := Apply(s.lru, DoErase(i)))
  }

  /** Frame i is written back if dirty, then filled with page p from the disk. */
  function Reuse(s: Pool, i: int, p: nat): Pool
    requires 0 <= i < |s.frames|
  {
    var w := WriteBack(s, i);
    Occupy(w, i, p, ReadPage(w.disk, p, s.frames[i].data))
  }

  /** Frame i is written back if dirty, then zeroed for the next page id. */
  function Begin(s: Pool, i: int): Pool
    requires 0 <= i < |s.frames|
  {
    Occupy(WriteBack(s.(next := s.next + 1), i), i, s.next, Zeros())
  }

  ghost predicate Pinned(s: Pool, p: int) {
    p in s.table && 0 <= s.table[p] < |s.frames| && s.frames[s.table[p]].pin > 0
  }

  ghost function Fetch(s: Pool, p: nat): (Got, Pool)
    requires Ok(s)
  {
    if p in s.table then
      assert TableAt(s, p);
      (At(s.table[p]), PinMore(s, s.table[p]))
    else
      TakeFacts(s);
      if Take(s).0 == NoPage then (NoPage, s) else (Take(s).0, Reuse(Take(s).1, Take(s).0.frame, p))
  }

  ghost function New(s: Pool): (Got, Pool)
    requires Ok(s)
  {
    TakeFacts(s);
    if Take(s).0 == NoPage then (NoPage, s) else (Take(s).0, Begin(Take(s).1, Take(s).0.frame))
  }

  ghost function Release(s: Pool, i: int, dirty: bool): Pool
    requires 0 <= i < |s.frames|
  {
    var f := s.frames[i];
    s.(frames := s.frames[i := f.(pin := f.pin - 1, dirty := f.dirty || dirty)],
       lru := if f.pin == 1 then Apply(s.lru, DoInsert(i)) else s.lru)
  }

  ghost function Unpin(s: Pool, p: int, dirty: bool): (bool, Pool) {
    if Pinned(s, p) then (true, Release(s, s.table[p], dirty)) else (false, s)
  }

  /** The holder of a pinned page changes its bytes. */
  ghost function Change(s: Pool, p: int, data: Bytes): Pool
    requires Pinned(s, p)
  {
    var i := s.table[p];
    s.(frames := s.frames[i := s.frames[i].(data := data)])
  }

  ghost function Flush(s: Pool, p: nat): (bool, Pool) {
    if p in s.table && 0 <= s.table[p] < |s.frames|
    then (true, s.(disk := WritePage(s.disk, p, s.frames[s.table[p]].data)))
    else (false, s)
  }

  ghost predicate Deletable(s: Pool, p: int) {
    p in s.table && 0 <= s.table[p] < |s.frames| && s.frames[s.table[p]].pin == 0
  }

  ghost function Vacate(s: Pool, i: int, p: int): Pool
    requires 0 <= i < |s.frames|
  {
    s.(table := s.table - {p}, lru := Apply(s.lru, DoErase(i)), free := s.free + [i],
       frames := s.frames[i := s.frames[i].(pageId := INVALID_PAGE_ID, dirty := false)])
  }

  ghost function Delete(s: Pool, p: int): Pool {
    if Deletable(s, p) then Vacate(s, s.table[p], p) else s
  }

  // ---- Every operation keeps every frame in its place ----

  lemma CutDistinct(s: seq<int>, i: nat)
    requires NoDuplicates(s) && i < |s|
    ensures NoDuplicates(s[..i] + s[i + 1..])
  {
    var r := s[..i] + s[i + 1..];
    forall x, y | 0 <= x < y < |r| ensures r[x] != r[y] {
      var a, b := if x < i then x else x + 1, if y < i then y else y + 1;
      assert r[x] == s[a] && r[y] == s[b] && a < b;
    }
  }

  lemma WithoutDistinct(s: seq<int>, v: int)
    requires NoDuplicates(s)
    ensures NoDuplicates(Without(s, v))
  {
    if v in s {
      var i :| 0 <= i < |s| && s[i] == v;
      WithoutAt(s, i);
      CutDistinct(s, i);
    }
  }

  /** The frame taken is unpinned, and no frame is to be had only when all are pinned. A free frame is taken before one
    * that holds a page, and of those the one at the head of the replacer. */
  lemma TakeFacts(s: Pool)
    requires Ok(s)
    ensures var g, t := Take(s).0, Take(s).1;
      && (g == NoPage <==> forall i :: 0 <= i < |s.frames| ==> s.frames[i].pin > 0)
      && (g.At? ==> 0 <= g.frame < |s.frames| && s.frames[g.frame].pin == 0 && g.frame !in t.free && g.frame !in t.lru
                    && (forall x :: x != g.frame ==> (x in t.free <==> x in s.free) && (x in t.lru <==> x in s.lru))
                    && NoDuplicates(t.free) && NoDuplicates(t.lru)
                    && (s.free != [] ==> g.frame in s.free) && (s.free == [] ==> s.lru != [] && g.frame == s.lru[0]))
  {
    var g, t := Take(s).0, Take(s).1;
    if g == NoPage {
      forall i | 0 <= i < |s.frames| ensures s.frames[i].pin > 0 { assert Placed(s, i); }
    } else {
      assert g.frame in s.free || g.frame in s.lru;
      assert Placed(s, g.frame);
      if s.free != [] { TailMembers(s.free); } else { TailMembers(s.lru); }
    }
  }

  lemma TailMembers(s: seq<int>)
    requires s != [] && NoDuplicates(s)
    ensures forall x :: x in s[1..] <==> x in s && x != s[0]
    ensures NoDuplicates(s[1..])
  {
    assert s == [s[0]] + s[1..];
  }

  lemma OccupyOk(s: Pool, t: Pool, i: int, p: int, data: Bytes)
    requires Ok(s) && t.frames == s.frames && t.table == s.table && s.next <= t.next <= MAX_PAGES
    requires 0 <= i < |s.frames| && s.frames[i].pin == 0 && p !in s.table && 0 <= p < t.next
    requires i !in t.free && i !in t.lru && NoDuplicates(t.free) && NoDuplicates(t.lru)
    requires forall x :: x != i ==> (x in t.free <==> x in s.free) && (x in t.lru <==> x in s.lru)
    ensures Ok(Occupy(t, i, p, data))
  {
    var r := Occupy(t, i, p, data);
    forall j | 0 <= j < |r.frames| ensures Placed(r, j) && Resident(r, j) {
      assert Placed(s, j) && Resident(s, j) && Resident(s, i);
    }
    forall q | q in r.table ensures TableAt(r, q) {
      if q != p { assert TableAt(s, q) && Resident(s, i); }
    }
  }

  lemma FetchOk(s: Pool, p: nat)
    requires Ok(s) && p < s.next
    ensures Ok(Fetch(s, p).1)
    ensures Fetch(s, p).0 == NoPage <==> p !in s.table && forall i :: 0 <= i < |s.frames| ==> s.frames[i].pin > 0
    ensures Fetch(s, p).0.At? ==> Pinned(Fetch(s, p).1, p) && Fetch(s, p).1.table[p] == Fetch(s, p).0.frame
    ensures Fetch(s, p).1.next == s.next && (Fetch(s, p).0 == NoPage ==> Fetch(s, p).1 == s)
  {
    if p in s.table {
      assert TableAt(s, p);
      var r := Fetch(s, p).1;
      WithoutDistinct(s.lru, s.table[p]);
      forall j | 0 <= j < |r.frames| ensures Placed(r, j) && Resident(r, j) { assert Placed(s, j) && Resident(s, j); }
      forall q | q in r.table ensures TableAt(r, q) { assert TableAt(s, q); }
      assert Placed(s, s.table[p]);
    } else {
      TakeFacts(s);
      var g, t := Take(s).0, Take(s).1;
      if g.At? {
        var w := WriteBack(t, g.frame);
        OccupyOk(s, w, g.frame, p, ReadPage(w.disk, p, s.frames[g.frame].data));
      }
    }
  }

  lemma TableBelow(s: Pool)
    requires Ok(s)
    ensures forall q :: q in s.table ==> 0 <= q < s.next
  {
    forall q | q in s.table ensures 0 <= q < s.next {
      assert TableAt(s, q) && Resident(s, s.table[q]);
    }
  }

  lemma NewOk(s: Pool)
    requires Ok(s) && s.next < MAX_PAGES
    ensures Ok(New(s).1)
    ensures New(s).0 == NoPage <==> forall i :: 0 <= i < |s.frames| ==> s.frames[i].pin > 0
    ensures New(s).0.At? ==> s.next !in s.table && Pinned(New(s).1, s.next) && New(s).1.table[s.next] == New(s).0.frame
    ensures New(s).1.next == s.next + (if New(s).0.At? then 1 else 0) && (New(s).0 == NoPage ==> New(s).1 == s)
  {
    TakeFacts(s);
    var g, t := Take(s).0, Take(s).1;
    if g.At? {
      TableBelow(s);
      OccupyOk(s, WriteBack(t.(next := s.next + 1), g.frame), g.frame, s.next, Zeros());
    }
  }

  /** An accepted unpin takes one pin and marks the page if asked to; the frame joins the replacer exactly if that
    * was the last pin. A refused one changes nothing. */
  lemma UnpinOk(s: Pool, p: int, dirty: bool)
    requires Ok(s)
    ensures Ok(Unpin(s, p, dirty).1) && (Unpin(s, p, dirty).0 <==> Pinned(s, p))
    ensures Pinned(s, p) ==>
      var r, i := Unpin(s, p, dirty).1, s.table[p];
      && r.frames[i] == s.frames[i].(pin := s.frames[i].pin - 1, dirty := r.frames[i].dirty)
      && (r.frames[i].dirty <==> s.frames[i].dirty || dirty)
      && r == s.(frames := s.frames[i := r.frames[i]], lru := r.lru)
      && (r.lru == if s.frames[i].pin == 1 then s.lru + [i] else s.lru)
    ensures !Pinned(s, p) ==> Unpin(s, p, dirty).1 == s
  {
    if Pinned(s, p) {
      var r, i := Unpin(s, p, dirty).1, s.table[p];
      WithoutDistinct(s.lru, i);
      assert TableAt(s, p) && Placed(s, i);
      forall j | 0 <= j < |r.frames| ensures Placed(r, j) && Resident(r, j) { assert Placed(s, j) && Resident(s, j); }
      forall q | q in r.table ensures TableAt(r, q) { assert TableAt(s, q); }
    }
  }

  lemma ChangeOk(s: Pool, p: int, data: Bytes)
    requires Ok(s) && Pinned(s, p)
    ensures Ok(Change(s, p, data))
  {
    var r := Change(s, p, data);
    forall j | 0 <= j < |r.frames| ensures Placed(r, j) && Resident(r, j) { assert Placed(s, j) && Resident(s, j); }
    forall q | q in r.table ensures TableAt(r, q) { assert TableAt(s, q); }
  }

  lemma FlushOk(s: Pool, p: nat)
    requires Ok(s)
    ensures Ok(Flush(s, p).1)
  {
    var r := Flush(s, p).1;
    forall j | 0 <= j < |r.frames| ensures Placed(r, j) && Resident(r, j) { assert Placed(s, j) && Resident(s, j); }
    forall q | q in r.table ensures TableAt(r, q) { assert TableAt(s, q); }
  }

  /** Deleting an unpinned resident page takes it out of the table and the replacer and puts its frame at the end of the
    * free list; every other page keeps its frame, its bytes and its place. Any other delete changes nothing. */
  lemma DeleteOk(s: Pool, p: int)
    requires Ok(s)
    ensures Ok(Delete(s, p)) && Delete(s, p).disk == s.disk && Delete(s, p).next == s.next
    ensures Deletable(s, p) ==>
      var r, i := Delete(s, p), s.table[p];
      && r.table.Keys == s.table.Keys - {p} && (forall q :: q in r.table ==> r.table[q] == s.table[q])
      && r.free == s.free + [i] && i !in r.lru && r.lru == Without(s.lru, i)
      && |r.frames| == |s.frames| && forall j :: 0 <= j < |s.frames| && j != i ==> r.frames[j] == s.frames[j]
    ensures !Deletable(s, p) ==> Delete(s, p) == s
  {
    if Deletable(s, p) {
      var r, i := Delete(s, p), s.table[p];
      assert TableAt(s, p) && Placed(s, i);
      WithoutDistinct(s.lru, i);
      forall j | 0 <= j < |r.frames| ensures Placed(r, j) && Resident(r, j) { assert Placed(s, j) && Resident(s, j); }
      forall q | q in r.table ensures TableAt(r, q) { assert TableAt(s, q) && Resident(s, i); }
    }
  }
}
