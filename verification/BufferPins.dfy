/** What the pin counts count, which pages leave the pool, and in what order: laws over whole runs from a started
  * pool. */
module BufferPins {
  import opened Config
  import opened ByteCodec
  import opened LruReplacer
  import opened BufferPool
  import opened BufferContents

  // ---- The moments of a run ----

  lemma {:induction false} PrefixRun(s: Pool, ops: seq<Op>, n: nat)
    requires Ok(s) && IsRun(s, ops) && n <= |ops|
    ensures IsRun(s, ops[..n])
    decreases n
  {
    if n > 0 {
      StepOk(s, ops[0]);
      PrefixRun(Step(s, ops[0]), ops[1..], n - 1);
      assert ops[..n][0] == ops[0] && ops[..n][1..] == ops[1..][..n - 1];
    }
  }

  /** The pool after the first n operations. */
  ghost function Moment(s: Pool, ops: seq<Op>, n: nat): (r: Pool)
    requires Ok(s) && IsRun(s, ops) && n <= |ops|
    ensures Ok(r)
  {
    PrefixRun(s, ops, n);
    BufferContents.After(s, ops[..n])
  }

  /** Operation n leads from one moment to the next. */
  lemma {:induction false} MomentStep(s: Pool, ops: seq<Op>, n: nat)
    requires Ok(s) && IsRun(s, ops) && n < |ops|
    ensures Enabled(Moment(s, ops, n), ops[n]) && Moment(s, ops, n + 1) == Step(Moment(s, ops, n), ops[n])
    decreases n
  {
    PrefixRun(s, ops, n);
    PrefixRun(s, ops, n + 1);
    StepOk(s, ops[0]);
    var t, rest := Step(s, ops[0]), ops[1..];
    assert ops[..n + 1][0] == ops[0] && ops[..n + 1][1..] == rest[..n];
    if n > 0 {
      assert ops[..n][0] == ops[0] && ops[..n][1..] == rest[..n - 1];
      MomentStep(t, rest, n - 1);
    } else {
      assert BufferContents.After(t, rest[..0]) == t;
    }
  }

  // ---- Pins ----

  /** The pin count of a page; an absent page has none. */
  ghost function Pins(s: Pool, p: int): int {
    if p in s.table && 0 <= s.table[p] < |s.frames| then s.frames[s.table[p]].pin else 0
  }

  /** What an operation adds to the number of holders of page p, by the answer it gives. */
  ghost function Gain(s: Pool, op: Op, p: int): int
    requires Ok(s)
  {
    match op
    case FetchOp(q) => if q == p && Fetch(s, q).0.At? then 1 else 0
    case NewOp => if p == s.next && New(s).0.At? then 1 else 0
    case UnpinOp(q, dirty) => if q == p && Unpin(s, q, dirty).0 then -1 else 0
    case _ => 0
  }

  /** Taking over a frame changes the pins of the page that comes in alone. */
  lemma OccupyPins(s: Pool, t: Pool, i: int, q: int, data: Bytes, p: int)
    requires Ok(s) && t.frames == s.frames && t.table == s.table && 0 <= i < |s.frames| && s.frames[i].pin == 0
    requires q !in s.table
    ensures Pins(Occupy(t, i, q, data), p) == if p == q then 1 else Pins(s, p)
  {
    assert Resident(s, i) && Placed(s, i);
    TableBelow(s);
    if p in s.table { assert TableAt(s, p); }
  }

  lemma FetchPins(s: Pool, q: nat, p: int)
    requires Ok(s) && q < s.next
    ensures Pins(Fetch(s, q).1, p) == Pins(s, p) + Gain(s, FetchOp(q), p)
  {
    if p in s.table { assert TableAt(s, p); }
    if q in s.table {
      assert TableAt(s, q);
    } else {
      TakeFacts(s);
      var g, t := Take(s).0, Take(s).1;
      if g.At? {
        var w := WriteBack(t, g.frame);
        OccupyPins(s, w, g.frame, q, ReadPage(w.disk, q, s.frames[g.frame].data), p);
      }
    }
  }

  lemma NewPins(s: Pool, p: int)
    requires Ok(s) && s.next < MAX_PAGES
    ensures Pins(New(s).1, p) == Pins(s, p) + Gain(s, NewOp, p)
  {
    TakeFacts(s);
    TableBelow(s);
    var g, t := Take(s).0, Take(s).1;
    if g.At? {
      OccupyPins(s, WriteBack(t.(next := s.next + 1), g.frame), g.frame, s.next, Zeros(), p);
    }
  }

  /** Every operation changes the pins of a page by what its answer says. */
  lemma PinStep(s: Pool, op: Op, p: int)
    requires Ok(s) && Enabled(s, op)
    ensures Pins(Step(s, op), p) == Pins(s, p) + Gain(s, op, p)
  {
    if p in s.table { assert TableAt(s, p); }
    match op
    case FetchOp(q) => FetchPins(s, q, p);
    case NewOp => NewPins(s, p);
    case UnpinOp(q, _) => if q in s.table { assert TableAt(s, q); }
    case ChangeOp(q, _) => assert TableAt(s, q);
    case FlushOp(q) =>
    case DeleteOp(q) => if q in s.table { assert TableAt(s, q); }
  }

  /** The successful fetches and creations of page p less its accepted unpins, among the first n operations. */
  ghost function Holders(s: Pool, ops: seq<Op>, n: nat, p: int): int
    requires Ok(s) && IsRun(s, ops) && n <= |ops|
  {
    if n == 0 then 0 else Holders(s, ops, n - 1, p) + Gain(Moment(s, ops, n - 1), ops[n - 1], p)
  }

  /** The pin count of a page is the number of its holders. */
  lemma {:induction false} PinsAreHolders(s: Pool, ops: seq<Op>, n: nat, p: int)
    requires Started(s) && Ok(s) && IsRun(s, ops) && n <= |ops|
    ensures Pins(Moment(s, ops, n), p) == Holders(s, ops, n, p) >= 0
  {
    var now := Moment(s, ops, n);
    if p in now.table { assert TableAt(now, p) && Placed(now, now.table[p]); }
    if n > 0 {
      PinsAreHolders(s, ops, n - 1, p);
      MomentStep(s, ops, n - 1);
      PinStep(Moment(s, ops, n - 1), ops[n - 1], p);
    }
  }

  /** An unpin is accepted exactly while the page has a holder. */
  lemma UnpinExactly(s: Pool, ops: seq<Op>, n: nat, p: int, dirty: bool)
    requires Started(s) && Ok(s) && IsRun(s, ops) && n <= |ops|
    ensures Unpin(Moment(s, ops, n), p, dirty).0 <==> Holders(s, ops, n, p) > 0
  {
    PinsAreHolders(s, ops, n, p);
  }

  /** A fetch fails exactly when the page is absent and every frame holds a page that has a holder. */
  lemma FetchExactly(s: Pool, ops: seq<Op>, n: nat, p: nat)
    requires Started(s) && Ok(s) && IsRun(s, ops) && n <= |ops| && p < Moment(s, ops, n).next
    ensures var now := Moment(s, ops, n);
      Fetch(now, p).0 == NoPage <==>
        p !in now.table && forall i :: 0 <= i < |now.frames| ==> Holders(s, ops, n, now.frames[i].pageId) > 0
  {
    var now := Moment(s, ops, n);
    FetchOk(now, p);
    TableBelow(now);
    forall i | 0 <= i < |now.frames| ensures Holders(s, ops, n, now.frames[i].pageId) > 0 <==> now.frames[i].pin > 0 {
      var q := now.frames[i].pageId;
      assert Resident(now, i) && Placed(now, i);
      PinsAreHolders(s, ops, n, q);
      if q in now.table { assert TableAt(now, q); }
    }
  }

  // ---- Which pages come and go ----

  /** A page that stays keeps its frame and, unless its holder changes it, its bytes. */
  ghost predicate SameFrame(s: Pool, t: Pool, q: int, changed: bool) {
    && q in s.table && q in t.table && t.table[q] == s.table[q] && 0 <= s.table[q] < |s.frames| == |t.frames|
    && (!changed ==> t.frames[t.table[q]].data == s.frames[s.table[q]].data)
  }

  /** The page whose frame is taken when none is free: the one at the head of the replacer. */
  ghost predicate NextOut(s: Pool, q: int) {
    s.free == [] && s.lru != [] && q in s.table && s.table[q] == s.lru[0]
  }

  /** The operation takes a frame: a fetch of an absent page or a creation. */
  ghost predicate TakesFrame(s: Pool, op: Op) {
    op.NewOp? || (op.FetchOp? && op.page !in s.table)
  }

  lemma OccupyOthers(s: Pool, t: Pool, i: int, p: int, data: Bytes, q: int)
    requires Ok(s) && t.frames == s.frames && t.table == s.table && 0 <= i < |s.frames| && p !in s.table
    requires q in s.table
    ensures var r := Occupy(t, i, p, data);
      if s.table[q] == i then q !in r.table else SameFrame(s, r, q, false)
  {
    TableBelow(s);
    assert TableAt(s, q) && Resident(s, i);
  }

  lemma TakenOthers(s: Pool, op: Op, q: int)
    requires Ok(s) && Enabled(s, op) && TakesFrame(s, op) && q in s.table
    ensures if NextOut(s, q) then q !in Step(s, op).table else SameFrame(s, Step(s, op), q, false)
  {
    TakeFacts(s);
    TableBelow(s);
    assert TableAt(s, q);
    var g, t := Take(s).0, Take(s).1;
    if g.At? {
      if op.NewOp? {
        OccupyOthers(s, WriteBack(t.(next := s.next + 1), g.frame), g.frame, s.next, Zeros(), q);
      } else {
        var w := WriteBack(t, g.frame);
        OccupyOthers(s, w, g.frame, op.page, ReadPage(w.disk, op.page, s.frames[g.frame].data), q);
      }
    }
  }

  /** A page leaves the pool exactly if it is deleted while nobody holds it, or if a frame is taken, none is free and
    * it is at the head of the replacer. Otherwise it keeps its frame and its bytes. */
  lemma Leaves(s: Pool, op: Op, q: int)
    requires Ok(s) && Enabled(s, op) && q in s.table
    ensures q !in Step(s, op).table <==>
      (op.DeleteOp? && op.page == q && Pins(s, q) == 0) || (TakesFrame(s, op) && NextOut(s, q))
    ensures q in Step(s, op).table ==> SameFrame(s, Step(s, op), q, op.ChangeOp? && op.page == q)
    ensures Pins(s, q) > 0 ==> q in Step(s, op).table
  {
    assert TableAt(s, q) && Placed(s, s.table[q]);
    if TakesFrame(s, op) {
      TakenOthers(s, op, q);
      if NextOut(s, q) { assert s.lru[0] in s.lru; }
    } else {
      match op
      case FetchOp(p) => assert TableAt(s, p);
      case UnpinOp(p, _) => if p in s.table { assert TableAt(s, p) && (p != q ==> s.table[p] != s.table[q]); }
      case ChangeOp(p, _) => assert TableAt(s, p) && (p != q ==> s.table[p] != s.table[q]);
      case FlushOp(p) =>
      case DeleteOp(p) => DeleteOk(s, p);
    }
  }

  /** A page comes in only by a fetch of it or as the page created. */
  lemma ComesIn(s: Pool, op: Op, q: int)
    requires Ok(s) && Enabled(s, op) && q !in s.table && q in Step(s, op).table
    ensures (op.NewOp? && q == s.next) || (op.FetchOp? && op.page == q)
  {
    TakeFacts(s);
  }

  /** While a page has a holder it stays in its frame. */
  lemma {:induction false} HeldStays(s: Pool, ops: seq<Op>, a: nat, b: nat, p: int)
    requires Started(s) && Ok(s) && IsRun(s, ops) && a <= b <= |ops|
    requires forall n :: a <= n <= b ==> Holders(s, ops, n, p) > 0
    ensures p in Moment(s, ops, a).table && p in Moment(s, ops, b).table
    ensures Moment(s, ops, b).table[p] == Moment(s, ops, a).table[p]
    decreases b - a
  {
    PinsAreHolders(s, ops, b, p);
    if a < b {
      HeldStays(s, ops, a, b - 1, p);
      PinsAreHolders(s, ops, b - 1, p);
      MomentStep(s, ops, b - 1);
      Leaves(Moment(s, ops, b - 1), ops[b - 1], p);
    }
  }

  // ---- What goes to disk ----

  ghost predicate DirtyIn(s: Pool, p: int) {
    p in s.table && 0 <= s.table[p] < |s.frames| && s.frames[s.table[p]].dirty
  }

  /** A page that stays in the pool is dirty if it was, or if it is let go dirty; one that comes in is clean. */
  lemma DirtyStep(s: Pool, op: Op, p: int)
    requires Ok(s) && Enabled(s, op) && p in Step(s, op).table
    ensures DirtyIn(Step(s, op), p) <==> p in s.table && (DirtyIn(s, p) || (LetsGoDirty(op, p) && Pins(s, p) > 0))
  {
    if p in s.table {
      Leaves(s, op, p);
      StaysDirty(s, op, p);
    } else {
      ComesIn(s, op, p);
      TakeFacts(s);
    }
  }

  lemma StaysDirty(s: Pool, op: Op, p: int)
    requires Ok(s) && Enabled(s, op) && p in s.table && SameFrame(s, Step(s, op), p, true)
    ensures DirtyIn(Step(s, op), p) <==> DirtyIn(s, p) || (LetsGoDirty(op, p) && Pins(s, p) > 0)
  {
    assert TableAt(s, p) && Resident(s, s.table[p]);
    if TakesFrame(s, op) {
      TakeFacts(s);
      if Take(s).0.At? { assert Resident(s, Take(s).0.frame); }
    } else {
      match op
      case FetchOp(q) => assert TableAt(s, q);
      case UnpinOp(q, _) => if q in s.table { assert TableAt(s, q); }
      case ChangeOp(q, _) => assert TableAt(s, q);
      case FlushOp(_) =>
      case DeleteOp(q) => if q in s.table { assert TableAt(s, q); }
    }
  }

  ghost predicate LetsGoDirty(op: Op, p: int) { op.UnpinOp? && op.page == p && op.dirty }

  ghost predicate InPool(s: Pool, ops: seq<Op>, m: nat, p: int)
    requires Ok(s) && IsRun(s, ops) && m <= |ops|
  {
    p in Moment(s, ops, m).table
  }

  /** Operation i let page p go dirty, and the page has been in the pool ever since. */
  ghost predicate MarkedAt(s: Pool, ops: seq<Op>, n: nat, p: int, i: nat)
    requires Ok(s) && IsRun(s, ops) && n <= |ops|
  {
    && i < n && LetsGoDirty(ops[i], p) && Holders(s, ops, i, p) > 0
    && forall m {:trigger InPool(s, ops, m, p)} :: i < m <= n ==> InPool(s, ops, m, p)
  }

  lemma MarkedStep(s: Pool, ops: seq<Op>, n: nat, p: int, i: nat)
    requires Ok(s) && IsRun(s, ops) && n < |ops| && InPool(s, ops, n + 1, p)
    ensures MarkedAt(s, ops, n + 1, p, i) <==>
      (i < n && InPool(s, ops, n, p) && MarkedAt(s, ops, n, p, i))
      || (i == n && LetsGoDirty(ops[n], p) && Holders(s, ops, n, p) > 0)
  {
    if i < n && MarkedAt(s, ops, n + 1, p, i) { assert InPool(s, ops, n, p); }
  }

  /** A page is dirty exactly if a holder has let it go dirty since it came in. */
  lemma {:induction false} DirtyExactly(s: Pool, ops: seq<Op>, n: nat, p: int)
    requires Started(s) && Ok(s) && IsRun(s, ops) && n <= |ops| && p in Moment(s, ops, n).table
    ensures DirtyIn(Moment(s, ops, n), p) <==> exists i: nat :: MarkedAt(s, ops, n, p, i)
  {
    if n > 0 {
      var m := n - 1;
      var was := Moment(s, ops, m);
      MomentStep(s, ops, m);
      DirtyStep(was, ops[m], p);
      PinsAreHolders(s, ops, m, p);
      forall i: nat ensures MarkedAt(s, ops, n, p, i) <==>
        (i < m && InPool(s, ops, m, p) && MarkedAt(s, ops, m, p, i))
        || (i == m && LetsGoDirty(ops[m], p) && Holders(s, ops, m, p) > 0)
      {
        MarkedStep(s, ops, m, p, i);
      }
      if p in was.table { DirtyExactly(s, ops, m, p); }
      if LetsGoDirty(ops[m], p) && Holders(s, ops, m, p) > 0 { assert MarkedAt(s, ops, n, p, m); }
    }
  }

  /** The operation writes page q: it flushes it, or takes its frame away while it is dirty. */
  ghost predicate Writes(s: Pool, op: Op, q: int) {
    q in s.table && ((op.FlushOp? && op.page == q) || (TakesFrame(s, op) && NextOut(s, q) && DirtyIn(s, q)))
  }

  /** Writing back the frame taken. */
  lemma WrittenBack(s: Pool, i: int, q: nat)
    requires Ok(s) && 0 <= i < |s.frames|
    ensures var d, mine := WriteBack(s, i).disk, q in s.table && s.table[q] == i && s.frames[i].dirty;
      && (mine ==> q < |d| && d[q] == s.frames[i].data)
      && (!mine && q < |s.disk| ==> q < |d| && d[q] == s.disk[q])
      && (!mine && |s.disk| <= q < |d| ==> d[q] == Zeros())
  {
    assert Resident(s, i);
    if q in s.table { assert TableAt(s, q); }
  }

  /** On disk exactly the pages written change, and they get the bytes of their frames; a gap in the file is zeros. */
  lemma DiskStep(s: Pool, op: Op, q: nat)
    requires Ok(s) && Enabled(s, op)
    ensures Writes(s, op, q) ==> 0 <= s.table[q] < |s.frames| && OnDisk(Step(s, op), q, s.frames[s.table[q]].data)
    ensures !Writes(s, op, q) && q < |s.disk| ==> OnDisk(Step(s, op), q, s.disk[q])
    ensures !Writes(s, op, q) && |s.disk| <= q < |Step(s, op).disk| ==> OnDisk(Step(s, op), q, Zeros())
  {
    if q in s.table { assert TableAt(s, q); }
    if TakesFrame(s, op) {
      TakenDisk(s, op, q);
    } else if op.FetchOp? {
      assert TableAt(s, op.page);
    }
  }

  lemma TakenDisk(s: Pool, op: Op, q: nat)
    requires Ok(s) && Enabled(s, op) && TakesFrame(s, op)
    ensures Writes(s, op, q) ==> 0 <= s.table[q] < |s.frames| && OnDisk(Step(s, op), q, s.frames[s.table[q]].data)
    ensures !Writes(s, op, q) && q < |s.disk| ==> OnDisk(Step(s, op), q, s.disk[q])
    ensures !Writes(s, op, q) && |s.disk| <= q < |Step(s, op).disk| ==> OnDisk(Step(s, op), q, Zeros())
  {
    TakeFacts(s);
    var g := Take(s).0;
    if q in s.table { assert TableAt(s, q); }
    if g.At? {
      WrittenBack(s, g.frame, q);
      assert Resident(s, g.frame);
      assert Step(s, op).disk == WriteBack(s, g.frame).disk;
    }
  }

  /** A page read in has the bytes on disk, once the page that gave way is written back: zeros right at the end of the
    * file, and beyond it whatever the frame held. */
  lemma FetchBytes(s: Pool, p: nat)
    requires Ok(s) && p < s.next && p !in s.table && Fetch(s, p).0.At?
    ensures var i, t := Fetch(s, p).0.frame, Fetch(s, p).1;
      && 0 <= i < |s.frames| == |t.frames| && t.frames[i].pin == 1 && !t.frames[i].dirty
      && (p < |t.disk| ==> t.frames[i].data == t.disk[p])
      && (p == |t.disk| ==> t.frames[i].data == Zeros())
      && (p > |t.disk| ==> t.frames[i].data == s.frames[i].data)
  {
    TakeFacts(s);
  }

  // ---- The order of eviction ----

  /** The last operation among the first n by which page p lost its only holder, or -1. */
  ghost function IdleSince(s: Pool, ops: seq<Op>, n: nat, p: int): int
    requires Ok(s) && IsRun(s, ops) && n <= |ops|
  {
    if n == 0 then -1
    else if ops[n - 1].UnpinOp? && ops[n - 1].page == p && Holders(s, ops, n - 1, p) == 1 then n - 1
    else IdleSince(s, ops, n - 1, p)
  }

  ghost function PageOf(s: Pool, i: int): int {
    if 0 <= i < |s.frames| then s.frames[i].pageId else INVALID_PAGE_ID
  }

  /** Of two frames in the replacer the one ahead has been idle longer. */
  ghost predicate LongerIdle(s: Pool, ops: seq<Op>, n: nat, x: int, y: int)
    requires Ok(s) && IsRun(s, ops) && n <= |ops|
  {
    var now := Moment(s, ops, n);
    0 <= x < y < |now.lru| ==>
      IdleSince(s, ops, n, PageOf(now, now.lru[x])) < IdleSince(s, ops, n, PageOf(now, now.lru[y]))
  }

  lemma {:induction false} IdleBelow(s: Pool, ops: seq<Op>, n: nat, p: int)
    requires Ok(s) && IsRun(s, ops) && n <= |ops|
    ensures IdleSince(s, ops, n, p) < n
  {
    if n > 0 { IdleBelow(s, ops, n - 1, p); }
  }

  function Cut(s: seq<int>, i: nat): seq<int> { if i < |s| then s[..i] + s[i + 1..] else s }

  /** The operation takes the last holder from its page. */
  ghost predicate LetsGoLast(s: Pool, op: Op, p: int) { op.UnpinOp? && op.page == p && Pins(s, p) == 1 }

  lemma WithoutIsCut(s: seq<int>, v: int) returns (cut: nat)
    requires NoDuplicates(s)
    ensures Without(s, v) == Cut(s, cut) && (cut < |s| ==> s[cut] == v)
  {
    if v in s {
      cut :| 0 <= cut < |s| && s[cut] == v;
      WithoutAt(s, cut);
    } else {
      cut := |s|;
    }
  }

  /** At most one member leaves the replacer, and a page that has lost its last holder joins at the end. */
  lemma LruStep(s: Pool, op: Op) returns (cut: nat)
    requires Ok(s) && Enabled(s, op)
    ensures if op.UnpinOp? && LetsGoLast(s, op, op.page)
            then op.page in s.table && s.table[op.page] !in s.lru && Step(s, op).lru == s.lru + [s.table[op.page]]
            else Step(s, op).lru == Cut(s.lru, cut)
  {
    cut := |s.lru|;
    if TakesFrame(s, op) {
      cut := if s.free == [] then 0 else |s.lru|;
      TakeFacts(s);
    } else {
      match op
      case FetchOp(p) =>
        assert TableAt(s, p);
        cut := WithoutIsCut(s.lru, s.table[p]);
      case UnpinOp(p, _) =>
        if p in s.table { assert TableAt(s, p) && Placed(s, s.table[p]); }
      case DeleteOp(p) =>
        if Deletable(s, p) { cut := WithoutIsCut(s.lru, s.table[p]); }
      case _ =>
    }
  }

  /** A frame that stays in the replacer keeps its page, which nobody holds. */
  lemma LruPage(s: Pool, op: Op, i: int)
    requires Ok(s) && Enabled(s, op) && i in s.lru && i in Step(s, op).lru
    ensures PageOf(Step(s, op), i) == PageOf(s, i) && Pins(s, PageOf(s, i)) == 0
  {
    var t, q := Step(s, op), PageOf(s, i);
    assert Placed(s, i) && Resident(s, i);
    StepOk(s, op);
    Leaves(s, op, q);
    if q in t.table {
      assert TableAt(t, q);
    } else {
      assert Placed(t, i);
      if op.DeleteOp? { DeleteOk(s, q); } else { TakeFacts(s); }
    }
  }

  /** Two members of the replacer after operation n that were members before: in the same order and idle as long. */
  lemma BothKept(s: Pool, ops: seq<Op>, n: nat, a: nat, b: nat, x: nat, y: nat)
    requires Started(s) && Ok(s) && IsRun(s, ops) && n < |ops| && x < y < |Moment(s, ops, n + 1).lru|
    requires a < b < |Moment(s, ops, n).lru| && LongerIdle(s, ops, n, a, b)
    requires Moment(s, ops, n).lru[a] == Moment(s, ops, n + 1).lru[x]
    requires Moment(s, ops, n).lru[b] == Moment(s, ops, n + 1).lru[y]
    ensures LongerIdle(s, ops, n + 1, x, y)
  {
    KeptIdle(s, ops, n, Moment(s, ops, n).lru[a]);
    KeptIdle(s, ops, n, Moment(s, ops, n).lru[b]);
  }

  /** The page that has just lost its last holder stands behind all others. */
  lemma NewestIsLast(s: Pool, ops: seq<Op>, n: nat, x: nat)
    requires Started(s) && Ok(s) && IsRun(s, ops) && n < |ops| && x < |Moment(s, ops, n).lru|
    requires ops[n].UnpinOp? && LetsGoLast(Moment(s, ops, n), ops[n], ops[n].page)
    requires var was := Moment(s, ops, n);
      ops[n].page in was.table && Moment(s, ops, n + 1).lru == was.lru + [was.table[ops[n].page]]
    ensures LongerIdle(s, ops, n + 1, x, |Moment(s, ops, n).lru|)
  {
    var was, now, p := Moment(s, ops, n), Moment(s, ops, n + 1), ops[n].page;
    MomentStep(s, ops, n);
    assert TableAt(was, p) && PageOf(now, was.table[p]) == p;
    assert now.lru[x] == was.lru[x];
    KeptIdle(s, ops, n, was.lru[x]);
    PinsAreHolders(s, ops, n, p);
    IdleBelow(s, ops, n, PageOf(was, was.lru[x]));
  }

  lemma KeptIdle(s: Pool, ops: seq<Op>, n: nat, i: int)
    requires Started(s) && Ok(s) && IsRun(s, ops) && n < |ops|
    requires i in Moment(s, ops, n).lru && i in Moment(s, ops, n + 1).lru
    ensures var q := PageOf(Moment(s, ops, n), i);
      PageOf(Moment(s, ops, n + 1), i) == q && IdleSince(s, ops, n + 1, q) == IdleSince(s, ops, n, q)
  {
    MomentStep(s, ops, n);
    LruPage(Moment(s, ops, n), ops[n], i);
    PinsAreHolders(s, ops, n, PageOf(Moment(s, ops, n), i));
  }

  /** Where two members of the replacer were before: the second may have joined just now. */
  lemma LruWas(s: Pool, op: Op, x: nat, y: nat) returns (a: nat, b: nat)
    requires Ok(s) && Enabled(s, op) && x < y < |Step(s, op).lru|
    ensures a < b <= |s.lru| && s.lru[a] == Step(s, op).lru[x]
    ensures b < |s.lru| ==> s.lru[b] == Step(s, op).lru[y]
    ensures b == |s.lru| ==>
      && op.UnpinOp? && LetsGoLast(s, op, op.page) && y == |s.lru|
      && op.page in s.table && Step(s, op).lru == s.lru + [s.table[op.page]]
  {
    var cut := LruStep(s, op);
    a, b := x, y;
    if !(op.UnpinOp? && LetsGoLast(s, op, op.page)) && cut < |s.lru| {
      a, b := if cut <= x then x + 1 else x, if cut <= y then y + 1 else y;
    }
  }

  lemma {:induction false} LruSorted(s: Pool, ops: seq<Op>, n: nat, x: nat, y: nat)
    requires Started(s) && Ok(s) && IsRun(s, ops) && n <= |ops| && x < y < |Moment(s, ops, n).lru|
    ensures LongerIdle(s, ops, n, x, y)
  {
    var m := n - 1;
    MomentStep(s, ops, m);
    var a, b := LruWas(Moment(s, ops, m), ops[m], x, y);
    if b < |Moment(s, ops, m).lru| {
      LruSorted(s, ops, m, a, b);
      BothKept(s, ops, m, a, b, x, y);
    } else {
      NewestIsLast(s, ops, m, x);
    }
  }

  /** When a frame is taken from a resident page, that page has been without a holder longer than any other page that
    * has none. */
  lemma EvictsLongestIdle(s: Pool, ops: seq<Op>, n: nat, q: int, r: int)
    requires Started(s) && Ok(s) && IsRun(s, ops) && n <= |ops|
    requires var now := Moment(s, ops, n); NextOut(now, q) && r in now.table && r != q && Holders(s, ops, n, r) == 0
    ensures IdleSince(s, ops, n, q) < IdleSince(s, ops, n, r)
  {
    var now := Moment(s, ops, n);
    PinsAreHolders(s, ops, n, r);
    assert TableAt(now, q) && TableAt(now, r) && Placed(now, now.table[r]);
    var y :| 0 <= y < |now.lru| && now.lru[y] == now.table[r];
    assert y > 0;
    LruSorted(s, ops, n, 0, y);
  }
}
