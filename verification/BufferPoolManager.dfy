/** The buffer pool manager: frames in an array, an extendible hash as page table, an LRU replacer. */
module BufferPoolManagerObject {
  import opened Config
  import opened ByteCodec
  import opened LruReplacer
  import opened PowersOfTwo
  import opened ExtendibleHashTable
  import opened BufferPool
  import opened BufferContents

  /** The standard hash of a 32-bit page id: the id itself, sign-extended to 64 bits. */
  function PageHash(p: int): nat {
    p % 0x1_0000_0000_0000_0000
  }

  lemma MaxPages()
    ensures Pow2(MAX_DEPTH + 1) == MAX_PAGES
  {
    assert Pow2(8) == 256;
    assert Pow2(16) == 0x1_0000;
    assert Pow2(24) == 0x100_0000;
  }

  lemma LowOrTopBit(p: nat, d: nat)
    requires p < Pow2(d + 1)
    ensures p in {Low(p, d), Low(p, d) + Pow2(d)}
  {
    LowSmall(p, d + 1);
    NextBit(p, d);
  }

  lemma SubsetSize(a: set<int>, b: set<int>)
    requires a <= b
    ensures |a| <= |b|
  {
    assert b == a + (b - a);
  }

  ghost function SharingLow(M: map<int, int>, d: nat, low: nat): set<int> {
    set p | p in M && Low(PageHash(p), d) == low
  }

  /** At most two ids of d + 1 bits share their low d bits. */
  lemma LowShared(M: map<int, int>, d: nat, low: nat)
    requires forall p :: p in M ==> 0 <= p < MAX_PAGES && p < Pow2(d + 1)
    ensures |SharingLow(M, d, low)| <= 2
  {
    forall p | p in SharingLow(M, d, low) ensures p in {low, low + Pow2(d)} { LowOrTopBit(p, d); }
    SubsetSize(SharingLow(M, d, low), {low, low + Pow2(d)});
  }

  /** At most two page ids share their low 30 bits. */
  lemma PageIdsUncrowded(M: map<int, int>)
    requires forall p :: p in M ==> 0 <= p < MAX_PAGES
    ensures Uncrowded(M, PageHash, BUCKET_SIZE)
  {
    MaxPages();
    forall p | p in M ensures |Twins(M, PageHash, p)| <= BUCKET_SIZE {
      var low := Low(PageHash(p), MAX_DEPTH);
      LowShared(M, MAX_DEPTH, low);
      assert Twins(M, PageHash, p) == SharingLow(M, MAX_DEPTH, low);
    }
  }

  class BufferPoolManager {
    const frames: array<Frame>
    const replacer: LRUReplacer<int>
    const table: ExtendibleHash<int, int>
    var free: seq<int>
    var disk: seq<Bytes>
    var next: nat

    ghost predicate Parts()
      reads this, replacer, replacer.nodes, table
    {
      replacer.Valid() && table.Valid() && table.hash == PageHash && table.bucketSize == BUCKET_SIZE
    }

    /** The pool as a value. */
    ghost function State(): Pool
      reads this, frames, replacer, table
      requires |replacer.nodes| > 0
    {
      Pool(frames[..], free, replacer.Contents(), table.M, disk, next)
    }

    ghost predicate Valid()
      reads this, frames, replacer, replacer.nodes, table
    {
      Parts() && Ok(State())
    }

    /** All frames start out free. */
    constructor (poolSize: nat, disk: seq<Bytes>, next: nat)
      requires next <= MAX_PAGES
      ensures Valid() && Started(State()) && State().disk == disk && State().next == next && frames.Length == poolSize
      ensures fresh(frames) && fresh(replacer) && fresh(replacer.nodes) && fresh(table)
    {
      var all := [];
      for i := 0 to poolSize
        invariant |all| == i && forall j :: 0 <= j < i ==> all[j] == j
      {
        all := all + [i];
      }
      frames := new Frame[poolSize](_ => Frame(INVALID_PAGE_ID, false, 0, Zeros()));
      replacer := new LRUReplacer(0);
      table := new ExtendibleHash(BUCKET_SIZE, PageHash);
      free, this.disk, this.next := all, disk, next;
      new;
      StartedOk(State());
    }

    /** A frame to reuse, if any. */
    method TakeFrame() returns (g: Got)
      requires Valid()
      modifies this`free, replacer, replacer.nodes
      ensures Parts() && (forall n :: n in replacer.nodes ==> n in old(replacer.nodes))
      ensures (g, State()) == Take(old(State()))
    {
      if |free| > 0 {
        g := At(free[0]);
        free := free[1..];
      } else {
        var v := replacer.Victim();
        if v == NoVictim {
          return NoPage;
        }
        g := At(v.value);
      }
    }

    /** The frame's old page leaves the page table and page p enters it. */
    method Retable(was: int, p: nat, i: int)
      requires table.Valid() && table.hash == PageHash && table.bucketSize == BUCKET_SIZE && p < MAX_PAGES
        && forall q :: q in table.M ==> 0 <= q < MAX_PAGES
      modifies table
      ensures table.Valid() && table.M == (old(table.M) - {was})[p := i]
    {
      var _ := table.Remove(was);
      PageIdsUncrowded(table.M[p := i]);
      table.Insert(p, i);
    }

    method WriteIfDirty(i: int)
      requires Parts() && 0 <= i < frames.Length && (frames[i].dirty ==> frames[i].pageId >= 0)
      modifies this`disk
      ensures Parts() && State() == WriteBack(old(State()), i)
    {
      if frames[i].dirty {
        disk := WritePage(disk, frames[i].pageId, frames[i].data);
      }
    }

    lemma TableIds()
      requires Valid()
      ensures forall q :: q in table.M ==> 0 <= q < next <= MAX_PAGES
    {
      TableBelow(State());
    }

    method SetFrame(i: int, f: Frame)
      requires Parts() && 0 <= i < frames.Length
      modifies frames
      ensures Parts() && State() == old(State()).(frames := old(frames[..])[i := f])
    {
      frames[i] := f;
    }

    method Enqueue(i: int)
      requires Parts()
      modifies replacer, replacer.nodes
      ensures Parts() && (forall n :: n in replacer.nodes ==> n in old(replacer.nodes) || fresh(n))
      ensures State() == old(State()).(lru := Apply(old(replacer.Contents()), DoInsert(i)))
    {
      replacer.Insert(i);
    }

    method Dequeue(i: int)
      requires Parts()
      modifies replacer, replacer.nodes
      ensures Parts() && (forall n :: n in replacer.nodes ==> n in old(replacer.nodes))
      ensures State() == old(State()).(lru := Apply(old(replacer.Contents()), DoErase(i)))
    {
      var _ := replacer.Erase(i);
    }

    method Forget(p: int)
      requires Parts()
      modifies table
      ensures Parts() && State() == old(State()).(table := old(table.M) - {p})
    {
      var _ := table.Remove(p);
    }

    /** A page already in the pool is pinned once more. */
    method PinResident(i: int)
      requires Parts() && 0 <= i < frames.Length
      modifies frames, replacer, replacer.nodes
      ensures Parts() && (forall n :: n in replacer.nodes ==> n in old(replacer.nodes))
      ensures State() == PinMore(old(State()), i)
    {
      SetFrame(i, frames[i].(pin := frames[i].pin + 1));
      Dequeue(i);
    }

    /** FetchPage pins page p, reading it in when it is absent; it fails exactly when p is absent and every frame is
      * pinned. */
    method FetchPage(p: nat) returns (r: Got)
      requires Valid() && p < next
      modifies this, frames, replacer, replacer.nodes, table
      ensures Valid() && (forall n :: n in replacer.nodes ==> n in old(replacer.nodes))
      ensures (r, State()) == Fetch(old(State()), p)
      ensures r == NoPage <==> p !in old(table.M) && forall i :: 0 <= i < frames.Length ==> old(frames[i].pin) > 0
      ensures forall i :: 0 <= i < frames.Length && p in old(table.M) && old(table.M)[p] == i ==>
        r == At(i) && frames[i] == old(frames[i]).(pin := old(frames[i].pin) + 1)
    {
      ghost var s := State();
      TableIds();
      FetchOk(s, p);
      var found := table.Find(p);
      if found.Found? {
        assert TableAt(s, p);
        PinResident(found.value);
        return At(found.value);
      }
      r := FetchAbsent(p);
    }

    /** The page is absent: a frame is taken, if there is one, and filled. */
    method FetchAbsent(p: nat) returns (r: Got)
      requires Valid() && p < next && p !in table.M && forall q :: q in table.M ==> 0 <= q < MAX_PAGES
      modifies this, frames, replacer, replacer.nodes, table
      ensures Parts() && (forall n :: n in replacer.nodes ==> n in old(replacer.nodes))
      ensures (r, State()) == Fetch(old(State()), p)
    {
      ghost var s := State();
      TakeFacts(s);
      r := TakeFrame();
      if r != NoPage {
        assert Resident(s, r.frame);
        ReadIn(r.frame, p);
      }
    }

    /** The bookkeeping of an unpinned frame taken over by page p. */
    method TakeOver(i: int, p: nat, data: Bytes)
      requires Parts() && 0 <= i < frames.Length && p < MAX_PAGES && forall q :: q in table.M ==> 0 <= q < MAX_PAGES
      modifies frames, table
      ensures Parts() && State() == Occupy(old(State()), i, p, data)
    {
      Retable(frames[i].pageId, p, i);
      frames[i] := Frame(p, false, 1, data);
    }

    method ReadIn(i: int, p: nat)
      requires Parts() && 0 <= i < frames.Length && frames[i].pin == 0 && (frames[i].dirty ==> frames[i].pageId >= 0)
      requires p < MAX_PAGES && forall q :: q in table.M ==> 0 <= q < MAX_PAGES
      modifies this`disk, frames, table
      ensures Parts() && State() == Reuse(old(State()), i, p)
    {
      assert frames[i].pin == 0;
      WriteIfDirty(i);
      TakeOver(i, p, ReadPage(disk, p, frames[i].data));
    }

    method BeginPage(i: int) returns (p: nat)
      requires Parts() && 0 <= i < frames.Length && frames[i].pin == 0 && (frames[i].dirty ==> frames[i].pageId >= 0)
      requires next < MAX_PAGES && forall q :: q in table.M ==> 0 <= q < MAX_PAGES
      modifies this`disk, this`next, frames, table
      ensures Parts() && State() == Begin(old(State()), i) && p == old(next)
    {
      assert frames[i].pin == 0;
      p := next;
      next := next + 1;
      WriteIfDirty(i);
      TakeOver(i, p, Zeros());
    }

    /** NewPage allocates the next page id and hands out a zeroed frame; it fails exactly when every frame is pinned. */
    method NewPage() returns (r: Got, p: nat)
      requires Valid() && next < MAX_PAGES
      modifies this, frames, replacer, replacer.nodes, table
      ensures Valid() && (forall n :: n in replacer.nodes ==> n in old(replacer.nodes))
      ensures (r, State()) == New(old(State()))
      ensures r == NoPage <==> forall i :: 0 <= i < frames.Length ==> old(frames[i].pin) > 0
      ensures r.At? ==> p == old(next) && 0 <= r.frame < frames.Length && frames[r.frame] == Frame(p, false, 1, Zeros())
    {
      ghost var s := State();
      TableIds();
      NewOk(s);
      TakeFacts(s);
      p := 0;
      r := TakeFrame();
      if r == NoPage {
        return;
      }
      assert Resident(s, r.frame);
      p := BeginPage(r.frame);
    }

    method LetGo(i: int, dirty: bool)
      requires Parts() && 0 <= i < frames.Length && frames[i].pin > 0
      modifies frames, replacer, replacer.nodes
      ensures Parts() && (forall n :: n in replacer.nodes ==> n in old(replacer.nodes) || fresh(n))
      ensures State() == Release(old(State()), i, dirty)
    {
      LowerPin(i);
      if dirty {
        SetFrame(i, frames[i].(dirty := true));
      }
    }

    method LowerPin(i: int)
      requires Parts() && 0 <= i < frames.Length && frames[i].pin > 0
      modifies frames, replacer, replacer.nodes
      ensures Parts() && (forall n :: n in replacer.nodes ==> n in old(replacer.nodes) || fresh(n))
      ensures State() == Release(old(State()), i, false)
    {
      SetFrame(i, frames[i].(pin := frames[i].pin - 1));
      if frames[i].pin == 0 {
        Enqueue(i);
      }
    }

    method UnpinPage(p: int, dirty: bool) returns (ok: bool)
      requires Valid() && p != INVALID_PAGE_ID
      modifies frames, replacer, replacer.nodes
      ensures Valid() && (forall n :: n in replacer.nodes ==> n in old(replacer.nodes) || fresh(n))
      ensures (ok, State()) == Unpin(old(State()), p, dirty)
    {
      ghost var s := State();
      UnpinOk(s, p, dirty);
      var found := table.Find(p);
      if found == Absent {
        return false;
      }
      assert TableAt(s, p);
      if frames[found.value].pin <= 0 {
        return false;
      }
      LetGo(found.value, dirty);
      return true;
    }

    /** The holder of a pinned page changes its bytes through the pointer it was given. */
    method ChangePage(p: nat, data: Bytes)
      requires Valid() && Pinned(State(), p)
      modifies frames
      ensures Valid() && State() == Change(old(State()), p, data)
    {
      ChangeOk(State(), p, data);
      var found := table.Find(p);
      SetFrame(found.value, frames[found.value].(data := data));
    }

    /** FlushPage writes the page out but leaves it marked as it was. */
    method FlushPage(p: nat) returns (ok: bool)
      requires Valid()
      modifies this`disk
      ensures Valid() && (ok, State()) == Flush(old(State()), p)
    {
      ghost var s := State();
      FlushOk(s, p);
      var found := table.Find(p);
      if found == Absent {
        return false;
      }
      assert TableAt(s, p);
      disk := WritePage(disk, p, frames[found.value].data);
      return true;
    }

    method EmptyFrame(i: int, p: int)
      requires Parts() && 0 <= i < frames.Length
      modifies this`free, frames, replacer, replacer.nodes, table
      ensures Parts() && (forall n :: n in replacer.nodes ==> n in old(replacer.nodes))
      ensures State() == Vacate(old(State()), i, p)
    {
      Forget(p);
      Dequeue(i);
      PutOnFreeList(i);
    }

    method PutOnFreeList(i: int)
      requires Parts() && 0 <= i < frames.Length
      modifies this`free, frames
      ensures Parts()
      ensures State() == old(State()).(free := old(free) + [i],
        frames := old(frames[..])[i := old(frames[i]).(pageId := INVALID_PAGE_ID, dirty := false)])
    {
      SetFrame(i, frames[i].(pageId := INVALID_PAGE_ID, dirty := false));
      free := free + [i];
    }

    /** DeletePage frees the frame of an unpinned page, and answers false in every case. */
    method DeletePage(p: int) returns (ok: bool)
      requires Valid() && p != INVALID_PAGE_ID
      modifies this`free, frames, replacer, replacer.nodes, table
      ensures Valid() && (forall n :: n in replacer.nodes ==> n in old(replacer.nodes))
      ensures !ok && State() == Delete(old(State()), p)
      ensures forall i :: 0 <= i < frames.Length && p in old(table.M) && old(table.M)[p] == i ==>
        if old(frames[i].pin) == 0 then p !in table.M && i in free && i !in replacer.Contents()
        else State() == old(State())
    {
      ghost var s := State();
      DeleteOk(s, p);
      var found := table.Find(p);
      if found.Found? {
        assert TableAt(s, p);
        if frames[found.value].pin == 0 {
          EmptyFrame(found.value, p);
        }
      }
      return false;
    }
  }
}
