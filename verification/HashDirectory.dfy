/** The directory of the extendible hash: which slots belong to which bucket. */
module HashDirectory {
  import opened PowersOfTwo

  const NULL := -1

  datatype Bucket<K, V> = Bucket(items: map<K, V>, id: nat, depth: nat)

  type Buckets<K, V> = map<int, Bucket<K, V>>

  /** id agrees with `prefix` on its low d bits. */
  predicate Extends(id: nat, d: nat, prefix: nat) { Low(id, d) == prefix }

  /** Slot i is in the residue class of bucket b. */
  predicate InClass<K, V>(i: nat, b: Bucket<K, V>) { Low(i, b.depth) == b.id }

  ghost predicate SlotOk<K, V>(dir: seq<int>, bs: Buckets<K, V>, i: nat)
    requires i < |dir|
  {
    dir[i] != NULL ==> dir[i] in bs && InClass(i, bs[dir[i]])
  }

  ghost predicate OwnsClass<K, V>(dir: seq<int>, depth: nat, bs: Buckets<K, V>, p: int)
    requires p in bs
  {
    && p >= 0 && bs[p].depth <= depth && bs[p].id < Pow2(bs[p].depth)
    && forall i {:trigger dir[i]} :: 0 <= i < |dir| && InClass(i, bs[p]) ==> dir[i] == p
  }

  /** The directory has 2^depth slots, and each bucket owns exactly the slots of its class. */
  ghost predicate DirOk<K, V>(dir: seq<int>, depth: nat, bs: Buckets<K, V>) {
    && |dir| == Pow2(depth)
    && (forall i {:trigger SlotOk(dir, bs, i)} :: 0 <= i < |dir| ==> SlotOk(dir, bs, i))
    && (forall p {:trigger OwnsClass(dir, depth, bs, p)} :: p in bs ==> OwnsClass(dir, depth, bs, p))
  }

  ghost predicate BucketHolds<K(!new), V>(b: Bucket<K, V>, hash: K -> nat, M: map<K, V>) {
    forall k :: k in b.items ==> InClass(hash(k), b) && k in M && M[k] == b.items[k]
  }

  ghost predicate Stored<K(!new), V>(bs: Buckets<K, V>, k: K) {
    exists p :: p in bs && k in bs[p].items
  }

  /** The buckets together hold exactly the pairs of M, each key in the bucket of its hash class. */
  ghost predicate PairsOk<K(!new), V>(bs: Buckets<K, V>, hash: K -> nat, M: map<K, V>) {
    && (forall p {:trigger BucketHolds(bs[p], hash, M)} :: p in bs ==> BucketHolds(bs[p], hash, M))
    && (forall k {:trigger Stored(bs, k)} :: k in M ==> Stored(bs, k))
  }

  /** The bucket a key hashes to is the only one that can hold it. */
  lemma KeyBucket<K(!new), V>(dir: seq<int>, depth: nat, bs: Buckets<K, V>, hash: K -> nat, M: map<K, V>, k: K)
    requires DirOk(dir, depth, bs) && PairsOk(bs, hash, M)
    ensures var p := dir[Low(hash(k), depth)];
            && (k in M ==> p != NULL && p in bs && k in bs[p].items)
            && (p != NULL ==> p in bs && (k in bs[p].items <==> k in M) && (k in M ==> bs[p].items[k] == M[k]))
            && (forall q :: q in bs && k in bs[q].items ==> q == p)
  {
    var i := Low(hash(k), depth);
    assert SlotOk(dir, bs, i);
    forall q | q in bs && k in bs[q].items ensures q == dir[i] && q >= 0 && k in M && M[k] == bs[q].items[k] {
      assert OwnsClass(dir, depth, bs, q) && BucketHolds(bs[q], hash, M);
      LowLow(hash(k), bs[q].depth, depth);
      assert InClass(i, bs[q]);
    }
    assert k in M ==> Stored(bs, k);
  }

  /** What the directory must become once bucket p has been cut into classes b and c: every other
      slot keeps its bucket, the rest of p's old slots are empty. */
  function Target<K, V>(before: seq<int>, depth: nat, p: int, b: Bucket<K, V>, r: int, c: Bucket<K, V>, i: nat): int
    requires |before| == Pow2(depth)
  {
    if InClass(i, b) then p else if InClass(i, c) then r
    else if before[Low(i, depth)] == p then NULL else before[Low(i, depth)]
  }

  /** b and c split the old class of bucket p. */
  ghost predicate SplitOf<K, V>(b0: Bucket<K, V>, b: Bucket<K, V>, c: Bucket<K, V>) {
    && b0.depth < b.depth == c.depth && b.id < Pow2(b.depth) && c.id < Pow2(b.depth) && b.id != c.id
    && Extends(b.id, b0.depth, b0.id) && Extends(c.id, b0.depth, b0.id)
  }

  lemma SplitClass<K, V>(b0: Bucket<K, V>, b: Bucket<K, V>, c: Bucket<K, V>, i: nat)
    requires SplitOf(b0, b, c)
    ensures !(InClass(i, b) && InClass(i, c)) && (InClass(i, b) || InClass(i, c) ==> InClass(i, b0))
  {
    LowLow(i, b0.depth, b.depth);
  }

  /** The directory invariant holds of the target. */
  lemma TargetOk<K, V>(before: seq<int>, depth: nat, bs: Buckets<K, V>, p: int, b: Bucket<K, V>, r: int,
      c: Bucket<K, V>,
                       dir: seq<int>, depth': nat)
    requires DirOk(before, depth, bs) && p in bs && SplitOf(bs[p], b, c) && r !in bs && r >= 0
    requires depth' == (if b.depth > depth then b.depth else depth) && |dir| == Pow2(depth')
    requires forall i :: 0 <= i < |dir| ==> dir[i] == Target(before, depth, p, b, r, c, i)
    ensures DirOk(dir, depth', bs[p := b][r := c])
  {
    var bs' := bs[p := b][r := c];
    assert OwnsClass(before, depth, bs, p);
    forall i | 0 <= i < |dir| ensures SlotOk(dir, bs', i) {
      SplitClass(bs[p], b, c, i);
      var o := Low(i, depth);
      assert SlotOk(before, bs, o);
      if !InClass(i, b) && !InClass(i, c) && before[o] != p && before[o] != NULL {
        assert OwnsClass(before, depth, bs, before[o]);
        LowLow(i, bs[before[o]].depth, depth);
      }
    }
    forall q | q in bs' ensures OwnsClass(dir, depth', bs', q) {
      if q != p && q != r { assert OwnsClass(before, depth, bs, q); }
      forall i | 0 <= i < |dir| && InClass(i, bs'[q]) ensures dir[i] == q {
        SplitClass(bs[p], b, c, i);
        if q != p && q != r {
          var o := Low(i, depth);
          LowLow(i, bs[q].depth, depth);
          assert before[o] == q;
          if InClass(i, b) || InClass(i, c) {
            LowLow(i, bs[p].depth, depth);
          }
        }
      }
    }
  }
}
