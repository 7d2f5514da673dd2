/** The two ways Insert rewrites the directory after a bucket has been split. */
module HashRewrite {
  import opened PowersOfTwo
  import opened HashDirectory

  /** for (i = start; i < size; i += step) dir[i] = value */
  method Stride(dir: seq<int>, start: nat, step: nat, value: int) returns (r: seq<int>)
    requires step > 0
    ensures |r| == |dir|
    ensures forall j :: 0 <= j < |dir| ==> r[j] == if j >= start && j % step == start % step then value else dir[j]
  {
    r := dir;
    var i := start;
    while i < |dir|
      invariant i >= start && i % step == start % step && |r| == |dir|
      invariant forall j :: 0 <= j < |dir| ==>
        r[j] == if start <= j < i && j % step == start % step then value else dir[j]
      decreases |dir| - i
    {
      r := r[i := value];
      ModStep(i, step);
      forall j | i <= j < i + step && j % step == start % step ensures j == i { SameResidue(i, j, step); }
      i := i + step;
    }
  }

  /** The same loop over the slots of one class from position `from` on. */
  method StrideFrom(dir: seq<int>, from: nat, depth: nat, value: int) returns (r: seq<int>)
    ensures |r| == |dir|
    ensures forall j :: 0 <= j < |dir| ==>
      r[j] == if j >= from && Low(j, depth) == Low(from, depth) then value else dir[j]
  {
    r := Stride(dir, from, Pow2(depth), value);
    LowIsMod(from, depth);
    forall j | 0 <= j < |dir| ensures Low(j, depth) == j % Pow2(depth) { LowIsMod(j, depth); }
  }

  lemma NextInClass(id: nat, depth: nat, j: nat)
    requires id < Pow2(depth) && Low(j, depth) == id
    ensures j == id || j >= id + Pow2(depth)
  {
    if j < Pow2(depth) { LowSmall(j, depth); }
    else {
      LowIsMod(j, depth);
      DivMod(j, Pow2(depth));
      var q := j / Pow2(depth);
      if q >= 1 { FewerMultiples(0, q, Pow2(depth)); }
    }
  }

  lemma LowShift(id: nat, depth: nat)
    requires id < Pow2(depth)
    ensures Low(id, depth) == id && Low(id + Pow2(depth), depth) == id
  {
    LowSmall(id, depth);
    LowIsMod(id, depth);
    LowIsMod(id + Pow2(depth), depth);
    ModStep(id, Pow2(depth));
  }

  /** Points every slot of one class at a bucket: the first by hand, the rest by the loop. */
  method FillClass(dir: seq<int>, id: nat, depth: nat, value: int) returns (r: seq<int>)
    requires id < Pow2(depth) && id < |dir|
    ensures |r| == |dir|
    ensures forall j :: 0 <= j < |dir| ==> r[j] == if Low(j, depth) == id then value else dir[j]
  {
    LowShift(id, depth);
    r := StrideFrom(dir[id := value], id + Pow2(depth), depth, value);
    forall j | 0 <= j < |dir| && Low(j, depth) == id
      ensures j == id || j >= id + Pow2(depth) { NextInClass(id, depth, j); }
  }

  /** The bucket was not split beyond the global depth: its slots are cleared and shared out. */
  method RewriteInPlace<K, V>(before: seq<int>, ghost depth: nat, ghost bs: Buckets<K, V>, p: int, b0: Bucket<K, V>,
                              b: Bucket<K, V>, r: int, c: Bucket<K, V>) returns (dir: seq<int>)
    requires DirOk(before, depth, bs) && p in bs && bs[p] == b0 && SplitOf(b0, b, c) && b.depth <= depth
    ensures |dir| == |before|
    ensures forall i :: 0 <= i < |dir| ==> dir[i] == Target(before, depth, p, b, r, c, i)
  {
    assert OwnsClass(before, depth, bs, p);
    if b.depth < depth { Pow2Grows(b.depth, depth); }
    LowShift(b0.id, b0.depth);
    dir := StrideFrom(before, b0.id, b0.depth, NULL);
    dir := FillClass(dir, b.id, b.depth, p);
    dir := FillClass(dir, c.id, c.depth, r);
    forall i | 0 <= i < |dir| ensures dir[i] == Target(before, depth, p, b, r, c, i) {
      SplitClass(b0, b, c, i);
      LowSmall(i, depth);
      LowLe(i, b0.depth);
      assert SlotOk(before, bs, i);
    }
  }

  // ----- doubling the directory ---------------------------------------------------------

  /** Slot j of the larger directory once the loop has dealt with the first i old slots. */
  function Grown<K, V>(before: seq<int>, depth: nat, bs: Buckets<K, V>, p: int, b: Bucket<K, V>, r: int,
      c: Bucket<K, V>,
                       i: nat, j: nat): int
    requires |before| == Pow2(depth) && i <= |before|
    requires forall x :: 0 <= x < |before| && before[x] != NULL ==> before[x] in bs
  {
    if j == b.id then p else if j == c.id then r
    else
      var o := before[Low(j, depth)];
      if o == NULL then NULL
      else if o == p then (if j < |before| && j >= i then p else NULL)
      else if j < |before| || bs[o].id < i then o else NULL
  }

  ghost predicate Growing<K, V>(before: seq<int>, depth: nat, bs: Buckets<K, V>, p: int, b: Bucket<K, V>, r: int,
      c: Bucket<K, V>) {
    DirOk(before, depth, bs) && p in bs && SplitOf(bs[p], b, c) && depth < b.depth && r !in bs && r >= 0
  }

  lemma GrownEnds<K, V>(before: seq<int>, depth: nat, bs: Buckets<K, V>, p: int, b: Bucket<K, V>, r: int,
      c: Bucket<K, V>, j: nat)
    requires Growing(before, depth, bs, p, b, r, c) && j < Pow2(b.depth)
    requires forall x :: 0 <= x < |before| && before[x] != NULL ==> before[x] in bs
    ensures Grown(before, depth, bs, p, b, r, c, |before|, j) == Target(before, depth, p, b, r, c, j)
  {
    LowSmall(j, b.depth);
    var o := before[Low(j, depth)];
    if o != NULL && o != p {
      assert OwnsClass(before, depth, bs, o);
      if bs[o].depth < depth { Pow2Grows(bs[o].depth, depth); }
    }
  }

  /** Slots of another bucket never coincide with the two slots of the split. */
  lemma OtherSlot<K, V>(before: seq<int>, depth: nat, bs: Buckets<K, V>, p: int, b: Bucket<K, V>, r: int,
      c: Bucket<K, V>, o: int, j: nat)
    requires Growing(before, depth, bs, p, b, r, c) && o in bs && o != p && InClass(j, bs[o])
    ensures before[Low(j, depth)] == o && j != b.id && j != c.id
  {
    assert OwnsClass(before, depth, bs, o) && OwnsClass(before, depth, bs, p);
    LowLow(j, bs[o].depth, depth);
    LowLow(j, bs[p].depth, depth);
    assert before[Low(j, depth)] == o;
  }

  /** What one round of the loop, at old slot i holding `now`, makes of a slot j holding `was`. */
  function AfterRound<K, V>(bs': Buckets<K, V>, now: int, i: nat, j: nat, was: int): int
    requires now != NULL ==> now in bs'
  {
    if now == NULL then was
    else if i < bs'[now].id || !InClass(i, bs'[now]) then (if j == i then NULL else was)
    else if j >= i + Pow2(bs'[now].depth)
      && Low(j, bs'[now].depth) == Low(i + Pow2(bs'[now].depth), bs'[now].depth) then now
    else was
  }

  ghost predicate GrowArgs<K, V>(before: seq<int>, depth: nat, bs: Buckets<K, V>, p: int, b: Bucket<K, V>, r: int,
      c: Bucket<K, V>, i: nat, j: nat) {
    && Growing(before, depth, bs, p, b, r, c) && i < |before| && j < Pow2(b.depth)
    && (forall x :: 0 <= x < |before| && before[x] != NULL ==> before[x] in bs)
  }

  /** The bucket that slot j waits for is reached exactly at that bucket's first slot. */
  lemma Awaited<K, V>(before: seq<int>, depth: nat, bs: Buckets<K, V>, p: int, b: Bucket<K, V>, r: int, c: Bucket<K, V>,
      i: nat, j: nat)
    requires GrowArgs(before, depth, bs, p, b, r, c, i, j)
    ensures var o := before[Low(j, depth)];
            o != NULL && o != p ==>
              o in bs && InClass(j, bs[o]) && (bs[o].id == i ==> before[i] == o && i != b.id && i != c.id)
  {
    var o := before[Low(j, depth)];
    if o != NULL && o != p {
      assert SlotOk(before, bs, Low(j, depth)) && OwnsClass(before, depth, bs, o);
      LowLow(j, bs[o].depth, depth);
      if bs[o].id == i {
        LowSmall(i, bs[o].depth);
        assert before[i] == o;
        OtherSlot(before, depth, bs, p, b, r, c, o, i);
      }
    }
  }

  lemma GrowOwn<K, V>(before: seq<int>, depth: nat, bs: Buckets<K, V>, p: int, b: Bucket<K, V>, r: int, c: Bucket<K, V>,
      i: nat, j: nat)
    requires GrowArgs(before, depth, bs, p, b, r, c, i, j)
      && (i == b.id || i == c.id || before[i] == p || before[i] == NULL)
    ensures var now := Grown(before, depth, bs, p, b, r, c, i, i);
            && (now != NULL ==> now in bs[p := b][r := c])
            && Grown(before, depth, bs, p, b, r, c, i + 1, j) ==
               AfterRound(bs[p := b][r := c], now, i, j, Grown(before, depth, bs, p, b, r, c, i, j))
  {
    LowSmall(i, depth);
    Pow2Grows(depth, b.depth);
    LowSmall(i, b.depth);
    Awaited(before, depth, bs, p, b, r, c, i, j);
    if j < |before| { LowSmall(j, depth); }
  }

  lemma GrowOther<K, V>(before: seq<int>, depth: nat, bs: Buckets<K, V>, p: int, b: Bucket<K, V>, r: int,
      c: Bucket<K, V>, i: nat, j: nat)
    requires GrowArgs(before, depth, bs, p, b, r, c, i, j) && i != b.id && i != c.id && before[i] != p
      && before[i] != NULL
    ensures var now := Grown(before, depth, bs, p, b, r, c, i, i);
            && now == before[i] && now in bs[p := b][r := c]
            && Grown(before, depth, bs, p, b, r, c, i + 1, j) ==
               AfterRound(bs[p := b][r := c], now, i, j, Grown(before, depth, bs, p, b, r, c, i, j))
  {
    LowSmall(i, depth);
    assert SlotOk(before, bs, i);
    Awaited(before, depth, bs, p, b, r, c, i, j);
    OtherRound(before, depth, bs, p, b, r, c, before[i], i, j);
  }

  /** One round of the loop, seen from slot j. */
  lemma GrowSlot<K, V>(before: seq<int>, depth: nat, bs: Buckets<K, V>, p: int, b: Bucket<K, V>, r: int,
      c: Bucket<K, V>, i: nat, j: nat)
    requires GrowArgs(before, depth, bs, p, b, r, c, i, j)
    ensures var now := Grown(before, depth, bs, p, b, r, c, i, i);
            && (now != NULL ==> now in bs[p := b][r := c])
            && Grown(before, depth, bs, p, b, r, c, i + 1, j) ==
               AfterRound(bs[p := b][r := c], now, i, j, Grown(before, depth, bs, p, b, r, c, i, j))
  {
    if i == b.id || i == c.id || before[i] == p || before[i] == NULL {
      GrowOwn(before, depth, bs, p, b, r, c, i, j);
    } else {
      GrowOther(before, depth, bs, p, b, r, c, i, j);
    }
  }

  lemma OtherRound<K, V>(before: seq<int>, depth: nat, bs: Buckets<K, V>, p: int, b: Bucket<K, V>, r: int,
      c: Bucket<K, V>, o: int, i: nat, j: nat)
    requires Growing(before, depth, bs, p, b, r, c) && i < |before| && j < Pow2(b.depth) && o in bs && o != p
    requires before[i] == o && InClass(i, bs[o])
    ensures i >= bs[o].id && Low(i + Pow2(bs[o].depth), bs[o].depth) == bs[o].id
    ensures Low(j, bs[o].depth) == bs[o].id ==>
              before[Low(j, depth)] == o && j != b.id && j != c.id && (j > i ==> j >= i + Pow2(bs[o].depth))
  {
    LowLe(i, bs[o].depth);
    LowIsMod(i, bs[o].depth);
    LowIsMod(i + Pow2(bs[o].depth), bs[o].depth);
    ModStep(i, Pow2(bs[o].depth));
    if InClass(j, bs[o]) {
      OtherSlot(before, depth, bs, p, b, r, c, o, j);
      LowIsMod(j, bs[o].depth);
      if i < j < i + Pow2(bs[o].depth) { SameResidue(i, j, Pow2(bs[o].depth)); }
    }
  }

  /** The bucket outgrew the global depth: the directory is enlarged, stale slots are cleared and
      every other bucket is copied to the new slots of its class. */
  method RewriteLarger<K, V>(before: seq<int>, ghost depth: nat, ghost bs: Buckets<K, V>, bs': Buckets<K, V>, p: int,
                             b: Bucket<K, V>, r: int, c: Bucket<K, V>) returns (dir: seq<int>)
    requires Growing(before, depth, bs, p, b, r, c) && bs' == bs[p := b][r := c]
    ensures |dir| == Pow2(b.depth)
    ensures forall i :: 0 <= i < |dir| ==> dir[i] == Target(before, depth, p, b, r, c, i)
  {
    forall x | 0 <= x < |before| && before[x] != NULL ensures before[x] in bs { assert SlotOk(before, bs, x); }
    Pow2Grows(depth, b.depth);
    dir := before + seq(Pow2(b.depth) - |before|, _ => NULL);
    dir := dir[b.id := p][c.id := r];
    forall j | 0 <= j < |dir| ensures dir[j] == Grown(before, depth, bs, p, b, r, c, 0, j) {
      GrownStarts(before, depth, bs, p, b, r, c, j);
    }
    for i := 0 to |before|
      invariant |dir| == Pow2(b.depth)
      invariant forall j :: 0 <= j < |dir| ==> dir[j] == Grown(before, depth, bs, p, b, r, c, i, j)
    {
      GrowSlot(before, depth, bs, p, b, r, c, i, i);
      ghost var was := dir;
      if dir[i] != NULL {
        var bucket := bs'[dir[i]];
        if i < bucket.id || !InClass(i, bucket) {
          dir := dir[i := NULL];
        } else {
          dir := StrideFrom(dir, i + Pow2(bucket.depth), bucket.depth, dir[i]);
        }
      }
      forall j | 0 <= j < |dir| ensures dir[j] == Grown(before, depth, bs, p, b, r, c, i + 1, j) {
        GrowSlot(before, depth, bs, p, b, r, c, i, j);
        assert dir[j] == AfterRound(bs', was[i], i, j, was[j]);
      }
    }
    forall j | 0 <= j < |dir| ensures dir[j] == Target(before, depth, p, b, r, c, j) {
      GrownEnds(before, depth, bs, p, b, r, c, j);
    }
  }

  lemma GrownStarts<K, V>(before: seq<int>, depth: nat, bs: Buckets<K, V>, p: int, b: Bucket<K, V>, r: int,
      c: Bucket<K, V>, j: nat)
    requires Growing(before, depth, bs, p, b, r, c) && j < Pow2(b.depth)
    requires forall x :: 0 <= x < |before| && before[x] != NULL ==> before[x] in bs
    ensures Grown(before, depth, bs, p, b, r, c, 0, j) ==
            if j == b.id then p else if j == c.id then r else if j < |before| then before[j] else NULL
  {
    if j < |before| { LowSmall(j, depth); }
  }
}
