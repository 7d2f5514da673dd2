/** The extendible hash table: lazily created buckets, multi-bit splits, both directory rewrites. */
module ExtendibleHashTable {
  import opened PowersOfTwo
  import opened HashDirectory
  import opened HashRewrite

  /** Hashes are told apart by their low 30 bits: the masks and strides of the code are powers of two computed as
    * int. */
  const MAX_DEPTH: nat := 30

  /** The keys that no directory tells apart from k. */
  ghost function Twins<K(!new), V>(M: map<K, V>, hash: K -> nat, k: K): set<K> {
    set l | l in M && Low(hash(l), MAX_DEPTH) == Low(hash(k), MAX_DEPTH)
  }

  /** No more keys share their low 30 bits than fit one bucket. */
  ghost predicate Uncrowded<K(!new), V>(M: map<K, V>, hash: K -> nat, size: nat) {
    forall k {:trigger Twins(M, hash, k)} :: k in M ==> |Twins(M, hash, k)| <= size
  }

  /** The keys agree in every bit before the last one that bucket b looks at. */
  ghost predicate AgreeBelow<K(!new), V>(items: map<K, V>, hash: K -> nat, b: Bucket<K, V>) {
    b.depth > 0 && forall k :: k in items ==> Low(hash(k), b.depth - 1) == Low(b.id, b.depth - 1)
  }

  lemma DeepenedAgree<K(!new), V>(b1: Bucket<K, V>, hash: K -> nat, b: Bucket<K, V>, c: Bucket<K, V>)
    requires Deepened(b1, hash, b, c) && forall k :: k in b1.items ==> InClass(hash(k), b1)
    ensures AgreeBelow(b1.items, hash, b)
  {
  }

  /** Splitting a bucket: deepen until its keys part, following the common prefix on the way. They part at the first bit
    * in which they differ. */
  method Split<K(==, !new), V>(b0: Bucket<K, V>, hash: K -> nat, ghost k1: K, ghost k2: K)
    returns (b: Bucket<K, V>, c: Bucket<K, V>)
    requires b0.id < Pow2(b0.depth) && forall k :: k in b0.items ==> InClass(hash(k), b0)
    requires k1 in b0.items && k2 in b0.items && Low(hash(k1), MAX_DEPTH) != Low(hash(k2), MAX_DEPTH)
    ensures SplitOf(b0, b, c) && b.depth <= MAX_DEPTH
    ensures b.items + c.items == b0.items && b.items.Keys !! c.items.Keys && |b.items| > 0 && |c.items| > 0
    ensures forall k :: k in b.items ==> InClass(hash(k), b)
    ensures forall k :: k in c.items ==> InClass(hash(k), c)
    ensures AgreeBelow(b0.items, hash, b)
  {
    b, c := b0, Bucket(map[], 0, b0.depth);
    LowSmall(b0.id, b0.depth);
    if b0.depth >= MAX_DEPTH { LowLow(hash(k1), MAX_DEPTH, b0.depth); LowLow(hash(k2), MAX_DEPTH, b0.depth); }
    while |c.items| == 0
      invariant b0.depth <= b.depth == c.depth <= MAX_DEPTH
      invariant |c.items| == 0 ==> b.items == b0.items && b.id < Pow2(b.depth) && Extends(b.id, b0.depth, b0.id)
      invariant |c.items| != 0 ==>
        SplitOf(b0, b, c) && b.items + c.items == b0.items && b.items.Keys !! c.items.Keys && |b.items| > 0
      invariant |c.items| != 0 ==> AgreeBelow(b0.items, hash, b)
      invariant forall k :: k in b.items ==> InClass(hash(k), b)
      invariant forall k :: k in c.items ==> InClass(hash(k), c)
      decreases MAX_DEPTH - b.depth
    {
      assert b.depth != MAX_DEPTH;
      ghost var b1 := b;
      b, c := Deepen(b, hash);
      IdPrefix(b0, b1, b, c);
      DeepenedAgree(b1, hash, b, c);
    }
  }

  lemma SomeKey<K, V>(m: map<K, V>)
    requires |m| > 0
    ensures exists k :: k in m
  {
    assert |m.Keys| > 0;
  }

  lemma IdPrefix<K, V>(b0: Bucket<K, V>, b1: Bucket<K, V>, b: Bucket<K, V>, c: Bucket<K, V>)
    requires b0.depth <= b1.depth && b1.id < Pow2(b1.depth) && Extends(b1.id, b0.depth, b0.id)
    requires b.depth == c.depth == b1.depth + 1
    requires Extends(b.id, b1.depth, b1.id) && b.id < Pow2(b.depth)
    ensures Extends(b.id, b0.depth, b0.id)
    ensures Extends(c.id, b1.depth, b1.id) ==> Extends(c.id, b0.depth, b0.id)
  {
    LowLow(b.id, b0.depth, b1.depth);
    LowLow(c.id, b0.depth, b1.depth);
  }

  lemma NextId(x: nat, id: nat, d: nat)
    requires Low(x, d) == id
    ensures Low(x, d + 1) == (if Bit(x, d) then id + Pow2(d) else id) < Pow2(d + 1)
    ensures Extends(Low(x, d + 1), d, id)
  {
    NextBit(x, d);
    LowLow(x, d, d + 1);
  }

  /** The items whose bit d is set (or not). */
  function Side<K(!new), V>(items: map<K, V>, hash: K -> nat, d: nat, bit: bool): (r: map<K, V>)
    ensures forall k :: k in r <==> k in items && Bit(hash(k), d) == bit
    ensures forall k :: k in r ==> r[k] == items[k]
  {
    map k | k in items && Bit(hash(k), d) == bit :: items[k]
  }

  lemma Sides<K(!new), V>(items: map<K, V>, hash: K -> nat, d: nat)
    ensures var kept, moved := Side(items, hash, d, false), Side(items, hash, d, true);
            && kept + moved == items && kept.Keys !! moved.Keys
            && (|kept| == 0 ==> moved == items) && (|moved| == 0 ==> kept == items)
  {
    var kept, moved := Side(items, hash, d, false), Side(items, hash, d, true);
    if |kept| == 0 { assert kept == map[]; assert moved == items; }
    if |moved| == 0 { assert moved == map[]; assert kept == items; }
  }

  /** One bit further: b and, unless it is empty, c extend the prefix of b1 and share out its items. */
  ghost predicate Deepened<K(!new), V>(b1: Bucket<K, V>, hash: K -> nat, b: Bucket<K, V>, c: Bucket<K, V>) {
    && b.depth == c.depth == b1.depth + 1
    && Extends(b.id, b1.depth, b1.id) && b.id < Pow2(b.depth) && |b.items| > 0
    && (forall k :: k in b.items ==> InClass(hash(k), b))
    && (|c.items| == 0 ==> b.items == b1.items)
    && (|c.items| != 0 ==>
          && Extends(c.id, b1.depth, b1.id) && c.id < Pow2(b.depth) && b.id != c.id
          && b.items + c.items == b1.items && b.items.Keys !! c.items.Keys)
    && (forall k :: k in c.items ==> InClass(hash(k), c))
  }

  lemma AllMoved<K(!new), V>(b1: Bucket<K, V>, hash: K -> nat, hi: nat)
    requires b1.id < Pow2(b1.depth) && |b1.items| > 0 && forall k :: k in b1.items ==> InClass(hash(k), b1)
    requires |Side(b1.items, hash, b1.depth, false)| == 0 && hi == b1.id + Pow2(b1.depth)
    ensures Deepened(b1, hash, Bucket(Side(b1.items, hash, b1.depth, true), hi, b1.depth + 1),
      Bucket(map[], hi, b1.depth + 1))
  {
    Sides(b1.items, hash, b1.depth);
    SideClass(b1, hash, true, hi);
  }

  lemma NoItems<K, V>(m: map<K, V>)
    requires |m| == 0
    ensures m == map[]
  {
  }

  lemma NoneMoved<K(!new), V>(b1: Bucket<K, V>, hash: K -> nat, id: nat)
    requires b1.id < Pow2(b1.depth) && |b1.items| > 0 && forall k :: k in b1.items ==> InClass(hash(k), b1)
    requires |Side(b1.items, hash, b1.depth, false)| > 0 && |Side(b1.items, hash, b1.depth, true)| == 0
    ensures Deepened(b1, hash, Bucket(Side(b1.items, hash, b1.depth, false), b1.id, b1.depth + 1),
                               Bucket(Side(b1.items, hash, b1.depth, true), id, b1.depth + 1))
  {
    Sides(b1.items, hash, b1.depth);
    SideClass(b1, hash, false, b1.id);
    NoItems(Side(b1.items, hash, b1.depth, true));
  }

  lemma SomeMoved<K(!new), V>(b1: Bucket<K, V>, hash: K -> nat, id: nat)
    requires b1.id < Pow2(b1.depth) && |b1.items| > 0 && forall k :: k in b1.items ==> InClass(hash(k), b1)
    requires |Side(b1.items, hash, b1.depth, false)| > 0 && |Side(b1.items, hash, b1.depth, true)| > 0
      && id == b1.id + Pow2(b1.depth)
    ensures Deepened(b1, hash, Bucket(Side(b1.items, hash, b1.depth, false), b1.id, b1.depth + 1),
                               Bucket(Side(b1.items, hash, b1.depth, true), id, b1.depth + 1))
  {
    Sides(b1.items, hash, b1.depth);
    SideClass(b1, hash, false, b1.id);
    SideClass(b1, hash, true, id);
  }

  /** One round of the split loop: the keys whose next bit is set move over; if none stays, all of
      them are handed back under the longer prefix. */
  method Deepen<K(==, !new), V>(b1: Bucket<K, V>, hash: K -> nat) returns (b: Bucket<K, V>, c: Bucket<K, V>)
    requires b1.id < Pow2(b1.depth) && |b1.items| > 0 && forall k :: k in b1.items ==> InClass(hash(k), b1)
    ensures Deepened(b1, hash, b, c)
  {
    var d := b1.depth;
    var kept, moved := Side(b1.items, hash, d, false), Side(b1.items, hash, d, true);
    ghost var hi := b1.id + Pow2(d);
    var id := 0;
    if |moved| != 0 {
      assert forall k :: k in moved ==> Low(hash(k), d + 1) == hi by { SideClass(b1, hash, true, hi); }
      id := CommonPrefix(moved, hash, d + 1, hi);
    }
    if |kept| == 0 {
      assert |moved| != 0 by { Sides(b1.items, hash, d); }
      AllMoved(b1, hash, hi);
      b, c := Bucket(moved, id, d + 1), Bucket(map[], id, d + 1);
    } else {
      if |moved| == 0 { NoneMoved(b1, hash, id); } else { SomeMoved(b1, hash, id); }
      b, c := Bucket(kept, b1.id, d + 1), Bucket(moved, id, d + 1);
    }
  }

  method CommonPrefix<K(==, !new), V>(items: map<K, V>, hash: K -> nat, d: nat, ghost id: nat) returns (r: nat)
    requires |items| > 0 && forall k :: k in items ==> Low(hash(k), d) == id
    ensures r == id
  {
    SomeKey(items);
    var k :| k in items;
    r := Low(hash(k), d);
  }

  lemma SideClass<K(!new), V>(b1: Bucket<K, V>, hash: K -> nat, bit: bool, id: nat)
    requires b1.id < Pow2(b1.depth) && forall k :: k in b1.items ==> InClass(hash(k), b1)
    requires id == if bit then b1.id + Pow2(b1.depth) else b1.id
    ensures var side := Side(b1.items, hash, b1.depth, bit);
            && (forall k :: k in side ==> Low(hash(k), b1.depth + 1) == id)
            && (|side| > 0 ==> Extends(id, b1.depth, b1.id) && id < Pow2(b1.depth + 1))
  {
    var side := Side(b1.items, hash, b1.depth, bit);
    forall k | k in side ensures Low(hash(k), b1.depth + 1) == id {
      NextId(hash(k), b1.id, b1.depth);
    }
    if |side| > 0 {
      SomeKey(side);
      var k :| k in side;
      NextId(hash(k), b1.id, b1.depth);
    }
  }

  // ----- what the operations do to the pairs ---------------------------------------------

  lemma PutPairs<K(!new), V>(dir: seq<int>, depth: nat, bs: Buckets<K, V>, hash: K -> nat, M: map<K, V>, k: K, v: V)
    requires DirOk(dir, depth, bs) && PairsOk(bs, hash, M) && dir[Low(hash(k), depth)] != NULL
    ensures var p := dir[Low(hash(k), depth)];
            p in bs && PairsOk(bs[p := bs[p].(items := bs[p].items[k := v])], hash, M[k := v])
  {
    var i := Low(hash(k), depth);
    var p := dir[i];
    assert SlotOk(dir, bs, i) && OwnsClass(dir, depth, bs, p);
    LowLow(hash(k), bs[p].depth, depth);
    var b', M' := bs[p].(items := bs[p].items[k := v]), M[k := v];
    var bs' := bs[p := b'];
    assert BucketHolds(bs[p], hash, M);
    forall q | q in bs' ensures BucketHolds(bs'[q], hash, M') {
      if q != p {
        assert BucketHolds(bs[q], hash, M);
        KeyBucket(dir, depth, bs, hash, M, k);
      }
    }
    forall x | x in M' ensures Stored(bs', x) {
      if x == k {
        assert p in bs' && x in bs'[p].items;
      } else {
        assert Stored(bs, x);
        var q :| q in bs && x in bs[q].items;
        assert q in bs' && x in bs'[q].items;
      }
    }
  }

  lemma DropPairs<K(!new), V>(dir: seq<int>, depth: nat, bs: Buckets<K, V>, hash: K -> nat, M: map<K, V>, k: K)
    requires DirOk(dir, depth, bs) && PairsOk(bs, hash, M) && dir[Low(hash(k), depth)] != NULL
    ensures var p := dir[Low(hash(k), depth)];
            p in bs && PairsOk(bs[p := bs[p].(items := bs[p].items - {k})], hash, M - {k})
  {
    var p := dir[Low(hash(k), depth)];
    KeyBucket(dir, depth, bs, hash, M, k);
    var bs', M' := bs[p := bs[p].(items := bs[p].items - {k})], M - {k};
    assert BucketHolds(bs[p], hash, M);
    forall q | q in bs' ensures BucketHolds(bs'[q], hash, M') {
      if q != p { assert BucketHolds(bs[q], hash, M); }
    }
    forall x | x in M' ensures Stored(bs', x) {
      assert Stored(bs, x);
      var q :| q in bs && x in bs[q].items;
      assert q in bs' && x in bs'[q].items;
    }
  }

  lemma SplitPairs<K(!new), V>(bs: Buckets<K, V>, hash: K -> nat, M: map<K, V>, p: int, b: Bucket<K, V>, r: int,
      c: Bucket<K, V>)
    requires PairsOk(bs, hash, M) && p in bs && r !in bs && b.items + c.items == bs[p].items
      && b.items.Keys !! c.items.Keys
    requires (forall k :: k in b.items ==> InClass(hash(k), b)) && (forall k :: k in c.items ==> InClass(hash(k), c))
    ensures PairsOk(bs[p := b][r := c], hash, M)
  {
    var bs' := bs[p := b][r := c];
    assert BucketHolds(bs[p], hash, M);
    assert forall k :: k in b.items ==> k in bs[p].items && bs[p].items[k] == b.items[k];
    assert forall k :: k in c.items ==> k in bs[p].items && bs[p].items[k] == c.items[k];
    forall q | q in bs' ensures BucketHolds(bs'[q], hash, M) {
      if q != p && q != r { assert BucketHolds(bs[q], hash, M); }
    }
    forall x | x in M ensures Stored(bs', x) {
      assert Stored(bs, x);
      var q :| q in bs && x in bs[q].items;
      var y := if q != p then q else if x in b.items then p else r;
      assert y in bs' && x in bs'[y].items;
    }
  }

  datatype Lookup<V> = Found(value: V) | Absent

  lemma DropSize<K, V>(m: map<K, V>, k: K)
    ensures |m - {k}| == |m| - if k in m then 1 else 0
  {
    if k in m {
      assert m == (m - {k})[k := m[k]];
    } else {
      assert m - {k} == m;
    }
  }

  /** The directory depends only on the ids and depths of the buckets. */
  lemma SameShape<K, V>(dir: seq<int>, depth: nat, bs: Buckets<K, V>, bs': Buckets<K, V>)
    requires DirOk(dir, depth, bs) && bs'.Keys == bs.Keys
    requires forall p :: p in bs ==> bs'[p].id == bs[p].id && bs'[p].depth == bs[p].depth
    ensures DirOk(dir, depth, bs')
  {
    forall i | 0 <= i < |dir| ensures SlotOk(dir, bs', i) { assert SlotOk(dir, bs, i); }
    forall p | p in bs' ensures OwnsClass(dir, depth, bs', p) { assert OwnsClass(dir, depth, bs, p); }
  }

  predicate Fits<K, V>(bs: Buckets<K, V>, p: int, size: nat)
    requires p in bs
  {
    |bs[p].items| <= size
  }

  /** The whole table: directory, pairs and bucket sizes; bucket `full` may be one over. */
  ghost predicate TableOk<K(!new), V>(dir: seq<int>, depth: nat, bs: Buckets<K, V>, hash: K -> nat, M: map<K, V>,
      size: nat, full: int) {
    && size > 0 && depth <= MAX_DEPTH && DirOk(dir, depth, bs) && PairsOk(bs, hash, M)
    && (forall p {:trigger Fits(bs, p, size)} :: p in bs && p != full ==> Fits(bs, p, size))
  }

  lemma RemoveKeeps<K(!new), V>(dir: seq<int>, depth: nat, bs: Buckets<K, V>, hash: K -> nat, M: map<K, V>, size: nat,
      k: K)
    requires TableOk(dir, depth, bs, hash, M, size, NULL) && dir[Low(hash(k), depth)] != NULL
    ensures var p := dir[Low(hash(k), depth)];
            && p in bs && (k in bs[p].items <==> k in M)
            && TableOk(dir, depth, bs[p := bs[p].(items := bs[p].items - {k})], hash, M - {k}, size, NULL)
            && |bs[p := bs[p].(items := bs[p].items - {k})]| == |bs|
  {
    var p := dir[Low(hash(k), depth)];
    KeyBucket(dir, depth, bs, hash, M, k);
    DropPairs(dir, depth, bs, hash, M, k);
    DropSize(bs[p].items, k);
    var bs' := bs[p := bs[p].(items := bs[p].items - {k})];
    assert bs'.Keys == bs.Keys;
    SameShape(dir, depth, bs, bs');
    forall q | q in bs' ensures Fits(bs', q, size) { assert OwnsClass(dir, depth, bs, q) && Fits(bs, q, size); }
  }

  /** An empty slot gets a bucket of its own, at the global depth. */
  lemma CreateKeeps<K(!new), V>(dir: seq<int>, depth: nat, bs: Buckets<K, V>, hash: K -> nat, M: map<K, V>, size: nat,
      i: nat, p: int)
    requires TableOk(dir, depth, bs, hash, M, size, NULL) && i < |dir| && dir[i] == NULL && p !in bs && p >= 0
    ensures TableOk(dir[i := p], depth, bs[p := Bucket(map[], i, depth)], hash, M, size, NULL)
  {
    var dir', bs' := dir[i := p], bs[p := Bucket(map[], i, depth)];
    LowSmall(i, depth);
    forall j | 0 <= j < |dir'| ensures SlotOk(dir', bs', j) { assert SlotOk(dir, bs, j); }
    forall q | q in bs' ensures OwnsClass(dir', depth, bs', q) && BucketHolds(bs'[q], hash, M) && Fits(bs', q, size) {
      if q == p {
        forall j | 0 <= j < |dir'| && InClass(j, bs'[p]) ensures dir'[j] == p { LowSmall(j, depth); }
      } else {
        assert OwnsClass(dir, depth, bs, q) && BucketHolds(bs[q], hash, M) && Fits(bs, q, size);
      }
    }
    forall k | k in M ensures Stored(bs', k) {
      assert Stored(bs, k);
      var q :| q in bs && k in bs[q].items;
      assert q in bs' && k in bs'[q].items;
    }
  }

  lemma PutKeeps<K(!new), V>(dir: seq<int>, depth: nat, bs: Buckets<K, V>, hash: K -> nat, M: map<K, V>, size: nat,
      k: K, v: V)
    requires TableOk(dir, depth, bs, hash, M, size, NULL) && dir[Low(hash(k), depth)] != NULL
    ensures var p := dir[Low(hash(k), depth)];
            && p in bs && (k in bs[p].items <==> k in M)
            && var b' := bs[p].(items := bs[p].items[k := v]);
               && TableOk(dir, depth, bs[p := b'], hash, M[k := v], size, if k in M then NULL else p)
               && |bs[p := b']| == |bs| && |b'.items| <= size + 1
  {
    var p := dir[Low(hash(k), depth)];
    KeyBucket(dir, depth, bs, hash, M, k);
    PutPairs(dir, depth, bs, hash, M, k, v);
    var bs' := bs[p := bs[p].(items := bs[p].items[k := v])];
    assert bs'.Keys == bs.Keys;
    SameShape(dir, depth, bs, bs');
    assert OwnsClass(dir, depth, bs, p) && Fits(bs, p, size);
    assert k in bs[p].items ==> bs[p].items[k := v].Keys == bs[p].items.Keys;
    forall q | q in bs' && q != (if k in M then NULL else p) ensures Fits(bs', q, size) {
      assert OwnsClass(dir, depth, bs, q) && Fits(bs, q, size);
    }
  }

  lemma SplitKeeps<K(!new), V>(dir: seq<int>, depth: nat, bs: Buckets<K, V>, hash: K -> nat, M: map<K, V>, size: nat,
                               p: int, b: Bucket<K, V>, r: int, c: Bucket<K, V>, dir': seq<int>)
    requires TableOk(dir, depth, bs, hash, M, size, p) && p in bs && |bs[p].items| == size + 1 && r !in bs && r >= 0
    requires SplitOf(bs[p], b, c) && b.depth <= MAX_DEPTH
    requires b.items + c.items == bs[p].items && b.items.Keys !! c.items.Keys && |b.items| > 0 && |c.items| > 0
    requires (forall k :: k in b.items ==> InClass(hash(k), b)) && (forall k :: k in c.items ==> InClass(hash(k), c))
    requires |dir'| == Pow2(if b.depth > depth then b.depth else depth)
    requires forall i :: 0 <= i < |dir'| ==> dir'[i] == Target(dir, depth, p, b, r, c, i)
    ensures TableOk(dir', if b.depth > depth then b.depth else depth, bs[p := b][r := c], hash, M, size, NULL)
    ensures |bs[p := b][r := c]| == |bs| + 1
  {
    var bs', depth' := bs[p := b][r := c], if b.depth > depth then b.depth else depth;
    TargetOk(dir, depth, bs, p, b, r, c, dir', depth');
    SplitPairs(bs, hash, M, p, b, r, c);
    UnionSize(b.items, c.items);
    forall q | q in bs' ensures Fits(bs', q, size) {
      if q != p && q != r { assert Fits(bs, q, size); }
    }
    assert bs'.Keys == bs.Keys + {r};
  }

  lemma UnionSize<K, V>(a: map<K, V>, b: map<K, V>)
    requires a.Keys !! b.Keys
    ensures |a + b| == |a| + |b|
  {
    assert (a + b).Keys == a.Keys + b.Keys;
  }

  class ExtendibleHash<K(==, !new), V(==)> {
    const bucketSize: nat
    const hash: K -> nat
    var depth: nat
    var directory: seq<int>
    var buckets: Buckets<K, V>
    var nextBucket: nat
    var bucketCount: nat
    var pairCount: nat
    ghost var M: map<K, V>

    /** The table is a directory of buckets holding exactly M; bucket `full` may be one over. */
    ghost predicate ValidBut(full: int)
      reads this
    {
      && TableOk(directory, depth, buckets, hash, M, bucketSize, full)
      && (forall p :: p in buckets ==> p < nextBucket)
      && bucketCount == |buckets| && pairCount == |M|
    }

    ghost predicate Valid()
      reads this
    {
      ValidBut(NULL)
    }

    constructor (size: nat, hash: K -> nat)
      requires size > 0
      ensures Valid() && M == map[] && this.hash == hash && bucketSize == size
    {
      bucketSize, this.hash := size, hash;
      depth, directory, buckets := 0, [0], map[0 := Bucket(map[], 0, 0)];
      nextBucket, bucketCount, pairCount, M := 1, 1, 0, map[];
      new;
      assert SlotOk(directory, buckets, 0) && OwnsClass(directory, depth, buckets, 0);
    }

    /** Find answers as the map does. */
    method Find(key: K) returns (value: Lookup<V>)
      requires Valid()
      ensures value == if key in M then Found(M[key]) else Absent
    {
      KeyBucket(directory, depth, buckets, hash, M, key);
      var index := Low(hash(key), depth);
      if directory[index] != NULL {
        var bucket := buckets[directory[index]];
        if key in bucket.items {
          return Found(bucket.items[key]);
        }
      }
      return Absent;
    }

    method Remove(key: K) returns (removed: bool)
      requires Valid()
      modifies this`buckets, this`pairCount, this`M
      ensures Valid() && M == old(M) - {key} && (removed <==> key in old(M))
    {
      var p := directory[Low(hash(key), depth)];
      if p == NULL {
        KeyBucket(directory, depth, buckets, hash, M, key);
        assert M - {key} == M;
        return false;
      }
      removed := RemoveFrom(p, key);
    }

    method RemoveFrom(p: int, key: K) returns (removed: bool)
      requires Valid() && p == directory[Low(hash(key), depth)] && p != NULL
      modifies this`buckets, this`pairCount, this`M
      ensures Valid() && M == old(M) - {key} && (removed <==> key in old(M))
    {
      RemoveKeeps(directory, depth, buckets, hash, M, bucketSize, key);
      DropSize(M, key);
      removed := key in buckets[p].items;
      buckets := buckets[p := buckets[p].(items := buckets[p].items - {key})];
      if removed {
        pairCount := pairCount - 1;
      }
      M := M - {key};
    }

    /** A slot without a bucket gets a new empty one; every other slot and bucket stays as it was. */
    method EnsureBucket(index: nat)
      requires Valid() && index < |directory|
      modifies this`directory, this`buckets, this`nextBucket, this`bucketCount
      ensures Valid() && directory == old(directory)[index := directory[index]] && directory[index] != NULL
      ensures if old(directory)[index] != NULL then directory == old(directory) && buckets == old(buckets)
              else
                && directory[index] !in old(buckets)
                && buckets == old(buckets)[directory[index] := Bucket(map[], index, depth)]
    {
      if directory[index] == NULL {
        CreateKeeps(directory, depth, buckets, hash, M, bucketSize, index, nextBucket);
        assert buckets[nextBucket := Bucket(map[], index, depth)].Keys == buckets.Keys + {nextBucket};
        directory := directory[index := nextBucket];
        buckets := buckets[nextBucket := Bucket(map[], index, depth)];
        nextBucket := nextBucket + 1;
        bucketCount := bucketCount + 1;
      }
    }

    /** The pair goes into its bucket, which may now hold one item too many. */
    method PutIntoBucket(key: K, value: V) returns (p: int, present: bool)
      requires Valid() && directory[Low(hash(key), depth)] != NULL
      modifies this`buckets, this`pairCount, this`M
      ensures ValidBut(if present then NULL else p) && M == old(M)[key := value]
      ensures p in buckets && key in buckets[p].items && |buckets[p].items| <= bucketSize + 1
    {
      p := directory[Low(hash(key), depth)];
      PutKeeps(directory, depth, buckets, hash, M, bucketSize, key, value);
      PutSize(M, key, value);
      present := key in buckets[p].items;
      buckets := buckets[p := buckets[p].(items := buckets[p].items[key := value])];
      M := M[key := value];
      if !present {
        pairCount := pairCount + 1;
      }
    }

    /** Insert puts the pair into the map, splitting the bucket and rewriting the directory as needed. */
    method Insert(key: K, value: V)
      requires Valid() && Uncrowded(M[key := value], hash, bucketSize)
      modifies this
      ensures Valid() && M == old(M)[key := value]
    {
      EnsureBucket(Low(hash(key), depth));
      var p, present := PutIntoBucket(key, value);
      if !present {
        if |buckets[p].items| > bucketSize {
          SplitBucket(p, key);
        } else {
          NowFits(directory, depth, buckets, hash, M, bucketSize, p);
        }
      }
    }

    /** Bucket p has one item too many: it is split and the directory rewritten. */
    method SplitBucket(p: int, ghost key: K)
      requires ValidBut(p) && p in buckets && |buckets[p].items| == bucketSize + 1 && Uncrowded(M, hash, bucketSize)
        && key in buckets[p].items
      modifies this`directory, this`depth, this`buckets, this`nextBucket, this`bucketCount
      ensures Valid()
    {
      directory, depth, buckets := SplitTable(directory, depth, buckets, hash, M, bucketSize, p, nextBucket, key);
      nextBucket, bucketCount := nextBucket + 1, bucketCount + 1;
    }
  }

  lemma Splittable<K(!new), V>(dir: seq<int>, depth: nat, bs: Buckets<K, V>, hash: K -> nat, M: map<K, V>, size: nat,
      p: int, key: K)
    returns (other: K)
    requires TableOk(dir, depth, bs, hash, M, size, p) && p in bs && |bs[p].items| == size + 1
      && Uncrowded(M, hash, size)
    requires key in bs[p].items
    ensures bs[p].id < Pow2(bs[p].depth) && forall k :: k in bs[p].items ==> InClass(hash(k), bs[p])
    ensures other in bs[p].items && Low(hash(other), MAX_DEPTH) != Low(hash(key), MAX_DEPTH)
  {
    assert OwnsClass(dir, depth, bs, p);
    assert BucketHolds(bs[p], hash, M);
    other := OtherKey(bs[p].items, hash, M, size, key);
  }

  method SplitTable<K(==, !new), V>(dir: seq<int>, depth: nat, bs: Buckets<K, V>, hash: K -> nat, ghost M: map<K, V>,
      ghost size: nat,
                                    p: int, r: int, ghost key: K)
    returns (dir': seq<int>, depth': nat, bs': Buckets<K, V>)
    requires TableOk(dir, depth, bs, hash, M, size, p) && p in bs && |bs[p].items| == size + 1
      && Uncrowded(M, hash, size)
    requires key in bs[p].items && r !in bs && r >= 0
    ensures TableOk(dir', depth', bs', hash, M, size, NULL) && bs'.Keys == bs.Keys + {r} && |bs'| == |bs| + 1
  {
    ghost var other := Splittable(dir, depth, bs, hash, M, size, p, key);
    var b, c := Split(bs[p], hash, key, other);
    dir' := RewriteDirectory(dir, depth, bs, p, b, r, c);
    depth', bs' := if b.depth > depth then b.depth else depth, bs[p := b][r := c];
    SplitKeeps(dir, depth, bs, hash, M, size, p, b, r, c, dir');
  }

  method RewriteDirectory<K, V>(dir: seq<int>, depth: nat, bs: Buckets<K, V>, p: int, b: Bucket<K, V>, r: int,
      c: Bucket<K, V>)
    returns (dir': seq<int>)
    requires DirOk(dir, depth, bs) && p in bs && SplitOf(bs[p], b, c) && r !in bs && r >= 0
    ensures |dir'| == Pow2(if b.depth > depth then b.depth else depth)
    ensures forall i :: 0 <= i < |dir'| ==> dir'[i] == Target(dir, depth, p, b, r, c, i)
  {
    if b.depth > depth {
      dir' := RewriteLarger(dir, depth, bs, bs[p := b][r := c], p, b, r, c);
    } else {
      dir' := RewriteInPlace(dir, depth, bs, p, bs[p], b, r, c);
    }
  }

  /** An overfull bucket holds a key that some directory tells apart from the given one. */
  lemma OtherKey<K(!new), V>(m: map<K, V>, hash: K -> nat, M: map<K, V>, size: nat, k: K) returns (l: K)
    requires |m| == size + 1 && k in m && m.Keys <= M.Keys && Uncrowded(M, hash, size)
    ensures l in m && Low(hash(l), MAX_DEPTH) != Low(hash(k), MAX_DEPTH)
  {
    assert |Twins(M, hash, k)| <= size;
    SmallerSet(m.Keys, Twins(M, hash, k));
    l :| l in m.Keys && l !in Twins(M, hash, k);
  }

  lemma SmallerSet<K>(a: set<K>, b: set<K>)
    requires |b| < |a|
    ensures exists l :: l in a && l !in b
  {
    assert b + (a - b) == a + (b - a);
    assert |a - b| > 0;
    var l :| l in a - b;
  }

  lemma PutSize<K, V>(m: map<K, V>, k: K, v: V)
    ensures |m[k := v]| == |m| + if k in m then 0 else 1
  {
    assert k in m ==> m[k := v].Keys == m.Keys;
  }

  lemma NowFits<K(!new), V>(dir: seq<int>, depth: nat, bs: Buckets<K, V>, hash: K -> nat, M: map<K, V>, size: nat,
      p: int)
    requires TableOk(dir, depth, bs, hash, M, size, p) && p in bs && |bs[p].items| <= size
    ensures TableOk(dir, depth, bs, hash, M, size, NULL)
  {
    forall q | q in bs ensures Fits(bs, q, size) { if q != p { assert Fits(bs, q, size); } }
  }
}
