/** What the holders of pages see: every fetch gives back the bytes last written, whatever was evicted in between. */
module BufferContents {
  import opened Config
  import opened ByteCodec
  import opened LruReplacer
  import opened BufferPool

  datatype Op =
    | FetchOp(page: nat)
    | NewOp
    | UnpinOp(page: nat, dirty: bool)
    | ChangeOp(page: nat, data: Bytes)
    | FlushOp(page: nat)
    | DeleteOp(page: nat)

  /** Only allocated pages are fetched, ids do not run out, and only the holder of a pinned page changes it. */
  ghost predicate Enabled(s: Pool, op: Op) {
    match op
    case FetchOp(p) => p < s.next
    case NewOp => s.next < MAX_PAGES
    case ChangeOp(p, _) => Pinned(s, p)
    case _ => true
  }

  ghost function Step(s: Pool, op: Op): Pool
    requires Ok(s) && Enabled(s, op)
  {
    match op
    case FetchOp(p) => Fetch(s, p).1
    case NewOp => New(s).1
    case UnpinOp(p, dirty) => Unpin(s, p, dirty).1
    case ChangeOp(p, data) => Change(s, p, data)
    case FlushOp(p) => Flush(s, p).1
    case DeleteOp(p) => Delete(s, p)
  }

  lemma StepOk(s: Pool, op: Op)
    requires Ok(s) && Enabled(s, op)
    ensures Ok(Step(s, op))
  {
    match op
    case FetchOp(p) => FetchOk(s, p);
    case NewOp => NewOk(s);
    case UnpinOp(p, dirty) => UnpinOk(s, p, dirty);
    case ChangeOp(p, data) => ChangeOk(s, p, data);
    case FlushOp(p) => FlushOk(s, p);
    case DeleteOp(p) => DeleteOk(s, p);
  }

  /** The bytes last written to each page, and the pages changed since they were last unpinned dirty or flushed. */
  datatype View = View(content: map<nat, Bytes>, unsaved: set<nat>)

  /** The view knows nothing of frames or disk: it follows writes, allocations, deletions, dirty unpins and flushes. */
  ghost function Observe(v: View, s: Pool, op: Op): View {
    match op
    case NewOp => if Take(s).0 == NoPage then v else View(v.content[s.next := Zeros()], v.unsaved + {s.next})
    case ChangeOp(p, data) => View(v.content[p := data], v.unsaved + {p})
    case UnpinOp(p, dirty) => if dirty && Pinned(s, p) then v.(unsaved := v.unsaved - {p}) else v
    case FlushOp(p) => if Flush(s, p).0 then v.(unsaved := v.unsaved - {p}) else v
    case DeleteOp(p) => if Deletable(s, p) then View(v.content - {p}, v.unsaved - {p}) else v
    case _ => v
  }

  /** Page p is not let go clean by its last holder while it has changes nobody has unpinned dirty or flushed. */
  ghost predicate Careful(v: View, s: Pool, op: Op, p: nat) {
    op == UnpinOp(p, false) && p in v.unsaved && Pinned(s, p) ==> s.frames[s.table[p]].pin > 1
  }

  ghost predicate OnDisk(s: Pool, p: nat, data: Bytes) {
    p < |s.disk| && s.disk[p] == data
  }

  /** The pool still has the bytes of page p: in its frame, and on disk unless the frame is marked or still to be
    * marked. */
  ghost predicate Kept(v: View, s: Pool, p: nat) {
    && (p in v.unsaved ==> Pinned(s, p))
    && (p in v.content ==> p < s.next)
    && (p in v.content ==>
          if p in s.table && 0 <= s.table[p] < |s.frames| then
            && s.frames[s.table[p]].data == v.content[p]
            && (s.frames[s.table[p]].dirty || p in v.unsaved || OnDisk(s, p, v.content[p]))
          else OnDisk(s, p, v.content[p]))
  }

  /** Taking a frame away from another page leaves page p alone; taking it from p saves p first. */
  lemma OccupyKept(v: View, s: Pool, t: Pool, i: int, q: int, data: Bytes, p: nat)
    requires Ok(s) && Kept(v, s, p) && 0 <= i < |s.frames| && s.frames[i].pin == 0 && q !in s.table && q != p
    requires t.frames == s.frames && t.table == s.table && t.disk == s.disk && t.next >= s.next
    ensures Kept(v, Occupy(WriteBack(t, i), i, q, data), p)
  {
    assert Resident(s, i);
    assert p in s.table ==> TableAt(s, p);
  }

  lemma FetchedKept(v: View, s: Pool, t: Pool, i: int, p: nat)
    requires Ok(s) && Kept(v, s, p) && 0 <= i < |s.frames| && s.frames[i].pin == 0 && p !in s.table
    requires t.frames == s.frames && t.table == s.table && t.disk == s.disk && t.next >= s.next
    ensures Kept(v, Reuse(t, i, p), p)
  {
    assert Resident(s, i);
  }

  lemma FetchKept(v: View, s: Pool, q: nat, p: nat)
    requires Ok(s) && Kept(v, s, p) && q < s.next
    ensures Kept(v, Fetch(s, q).1, p)
  {
    if q in s.table {
      assert TableAt(s, q);
    } else {
      TakeFacts(s);
      var g, t := Take(s).0, Take(s).1;
      if g.At? && q == p {
        FetchedKept(v, s, t, g.frame, p);
      } else if g.At? {
        OccupyKept(v, s, t, g.frame, q, ReadPage(WriteBack(t, g.frame).disk, q, s.frames[g.frame].data), p);
      }
    }
  }

  lemma NewKept(v: View, s: Pool, p: nat)
    requires Ok(s) && Kept(v, s, p) && s.next < MAX_PAGES
    ensures Kept(Observe(v, s, NewOp), New(s).1, p)
  {
    NewOk(s);
    TakeFacts(s);
    var g, t := Take(s).0, Take(s).1;
    if g.At? && p != s.next {
      OccupyKept(v, s, t.(next := s.next + 1), g.frame, s.next, Zeros(), p);
    }
  }

  lemma StepKept(v: View, s: Pool, op: Op, p: nat)
    requires Ok(s) && Enabled(s, op) && Kept(v, s, p) && Careful(v, s, op, p)
    ensures Kept(Observe(v, s, op), Step(s, op), p)
  {
    assert p in s.table ==> TableAt(s, p);
    match op
    case FetchOp(q) => FetchKept(v, s, q, p);
    case NewOp => NewKept(v, s, p);
    case UnpinOp(q, _) => assert q in s.table ==> TableAt(s, q);
    case ChangeOp(q, _) => assert TableAt(s, q) && Resident(s, s.table[q]);
    case FlushOp(q) => assert q in s.table ==> TableAt(s, q);
    case DeleteOp(q) => assert q in s.table ==> TableAt(s, q);
  }

  // ---- Whole runs ----

  ghost predicate IsRun(s: Pool, ops: seq<Op>)
    requires Ok(s)
    decreases |ops|
  {
    ops != [] ==> Enabled(s, ops[0]) && (StepOk(s, ops[0]); IsRun(Step(s, ops[0]), ops[1..]))
  }

  ghost function After(s: Pool, ops: seq<Op>): (r: Pool)
    requires Ok(s) && IsRun(s, ops)
    ensures Ok(r)
    decreases |ops|
  {
    if ops == [] then s else (StepOk(s, ops[0]); After(Step(s, ops[0]), ops[1..]))
  }

  ghost function Seen(v: View, s: Pool, ops: seq<Op>): View
    requires Ok(s) && IsRun(s, ops)
    decreases |ops|
  {
    if ops == [] then v else (StepOk(s, ops[0]); Seen(Observe(v, s, ops[0]), Step(s, ops[0]), ops[1..]))
  }

  /** Throughout the run page p is handled carefully. */
  ghost predicate CarefulRun(v: View, s: Pool, ops: seq<Op>, p: nat)
    requires Ok(s) && IsRun(s, ops)
    decreases |ops|
  {
    ops != [] ==>
      Careful(v, s, ops[0], p) && (StepOk(s, ops[0]); CarefulRun(Observe(v, s, ops[0]), Step(s, ops[0]), ops[1..], p))
  }

  lemma {:induction false} RunKept(v: View, s: Pool, ops: seq<Op>, p: nat)
    requires Ok(s) && IsRun(s, ops) && Kept(v, s, p) && CarefulRun(v, s, ops, p)
    ensures Kept(Seen(v, s, ops), After(s, ops), p)
    decreases |ops|
  {
    if ops != [] {
      StepOk(s, ops[0]);
      StepKept(v, s, ops[0], p);
      RunKept(Observe(v, s, ops[0]), Step(s, ops[0]), ops[1..], p);
    }
  }

  /** A pool just started over some file: every frame free. */
  ghost predicate Started(s: Pool) {
    && s.lru == [] && s.table == map[] && s.next <= MAX_PAGES
    && |s.free| == |s.frames| && (forall i :: 0 <= i < |s.frames| ==>
       s.free[i] == i && s.frames[i] == Frame(INVALID_PAGE_ID, false, 0, Zeros()))
  }

  /** At the start the content of the allocated pages is what the file holds. */
  ghost function FirstView(s: Pool): View {
    View(map p: nat | p < |s.disk| && p < s.next :: s.disk[p], {})
  }

  lemma StartedOk(s: Pool)
    requires Started(s)
    ensures Ok(s)
  {
    forall i | 0 <= i < |s.frames| ensures Placed(s, i) && Resident(s, i) { assert s.free[i] == i; }
  }

  /** From a started pool, after any run that handles page p carefully, a fetch of p that gets a frame gets
    * exactly the bytes last written to p. */
  lemma FetchReturnsLastWritten(s: Pool, ops: seq<Op>, p: nat)
    requires Started(s) && Ok(s) && IsRun(s, ops) && CarefulRun(FirstView(s), s, ops, p)
    requires p in Seen(FirstView(s), s, ops).content
    ensures p < After(s, ops).next
    ensures var (g, t) := Fetch(After(s, ops), p);
            g.At? ==> 0 <= g.frame < |t.frames| && t.frames[g.frame].data == Seen(FirstView(s), s, ops).content[p]
  {
    var r, v := After(s, ops), Seen(FirstView(s), s, ops);
    assert Kept(FirstView(s), s, p);
    RunKept(FirstView(s), s, ops, p);
    FetchOk(r, p);
    FetchKept(v, r, p, p);
  }

  /** Care is needed: in a pool with no other frame to spare, letting a changed page go clean and fetching another page
    * and then this one again brings back the old bytes from the disk. */
  lemma CarelessUnpinLoses(s: Pool, p: nat, q: nat)
    requires Ok(s) && Pinned(s, p) && s.frames[s.table[p]].pin == 1 && !s.frames[s.table[p]].dirty
    requires s.free == [] && s.lru == [] && q < s.next && q !in s.table && p < |s.disk|
    ensures var ops := [UnpinOp(p, false), FetchOp(q), UnpinOp(q, false), FetchOp(p)];
            && IsRun(s, ops)
            && p in After(s, ops).table && var i := After(s, ops).table[p];
               0 <= i < |After(s, ops).frames| && After(s, ops).frames[i].data == s.disk[p]
  {
    var ops := [UnpinOp(p, false), FetchOp(q), UnpinOp(q, false), FetchOp(p)];
    var i := s.table[p];
    assert TableAt(s, p) && Resident(s, i);
    var s1 := Step(s, ops[0]);
    StepOk(s, ops[0]);
    assert s1.lru == [i];
    var s2 := Step(s1, ops[1]);
    StepOk(s1, ops[1]);
    assert s2.table[q] == i && s2.frames[i].pin == 1 && s2.lru == [] && s2.disk == s.disk && p !in s2.table;
    var s3 := Step(s2, ops[2]);
    StepOk(s2, ops[2]);
    assert s3.lru == [i];
    var s4 := Step(s3, ops[3]);
    StepOk(s3, ops[3]);
    Unfold(s, ops);
    Unfold(s1, ops[1..]);
    Unfold(s2, ops[2..]);
    Unfold(s3, ops[3..]);
  }

  lemma Unfold(s: Pool, ops: seq<Op>)
    requires Ok(s) && ops != [] && Enabled(s, ops[0])
    ensures Ok(Step(s, ops[0]))
    ensures IsRun(s, ops) <==> IsRun(Step(s, ops[0]), ops[1..])
    ensures IsRun(s, ops) ==> After(s, ops) == After(Step(s, ops[0]), ops[1..])
  {
    StepOk(s, ops[0]);
  }
}
