/** What a search finds, what the leaf chain lists, and the one borrow after which they differ. */
module BTreeSearch {
  import opened Config
  import opened BTreeNodes
  import opened BTreeShape
  import opened BTreeGrow

  /** A search for k ends in a leaf that holds k with value v. */
  ghost predicate Finds(pages: Pages, F: Fences, k: int, v: int) {
    exists p :: p in F && p in pages && pages[p].LeafNode? && Within(F[p], k) && Item(k, v) in pages[p].items
  }

  /** Searching agrees with the map M on every key. */
  ghost predicate SearchAgrees(pages: Pages, F: Fences, M: map<int, int>) {
    forall k, v :: Finds(pages, F, k, v) <==> k in M && M[k] == v
  }

  /** Searching agrees with M on every key but x, which M has and the search does not find. */
  ghost predicate SearchLoses(pages: Pages, F: Fences, M: map<int, int>, x: int) {
    x in M && forall k, v :: Finds(pages, F, k, v) <==> k in M && k != x && M[k] == v
  }

  /** Some leaf is responsible for every key. */
  lemma {:induction false} LeafFor(pages: Pages, root: int, F: Fences, p: int, k: int) returns (leaf: int)
    requires Shape(pages, root, F, Linked) && p in F && Within(F[p], k)
    ensures leaf in F && leaf in pages && pages[leaf].LeafNode? && Within(F[leaf], k)
    decreases F[p].level
  {
    assert PageOk(pages, root, F, Linked, p);
    if pages[p].LeafNode? {
      leaf := p;
    } else {
      ChildWithin(pages, root, F, Linked, p, k);
      leaf := LeafFor(pages, root, F, pages[p].entries[ChildIndex(pages[p].entries, k)].child, k);
    }
  }

  /** In a well-formed tree a search finds exactly the pairs of the map. */
  lemma SearchIsMap(pages: Pages, root: int, F: Fences, M: map<int, int>)
    requires Shape(pages, root, F, Linked) && Agrees(pages, F, M)
    ensures SearchAgrees(pages, F, M)
  {
    assert PageOk(pages, root, F, Linked, root);
    forall k, v | Finds(pages, F, k, v) ensures k in M && M[k] == v {
      var p :| p in F && p in pages && pages[p].LeafNode? && Within(F[p], k) && Item(k, v) in pages[p].items;
      assert LeafHolds(pages, F, M, p);
    }
    forall k | k in M ensures Finds(pages, F, k, M[k]) {
      var p := LeafFor(pages, root, F, root, k);
      assert LeafHolds(pages, F, M, p);
      var i :| 0 <= i < |pages[p].items| && pages[p].items[i].key == k;
      assert pages[p].items[i] == Item(k, M[k]);
    }
  }

  // ----- the leaf chain ------------------------------------------------------------------

  /** The leaves, fenced by G, follow each other in key order and hold exactly M. */
  ghost predicate Listing(pages: Pages, G: Fences, M: map<int, int>) {
    && Chained(pages, G) && Agrees(pages, G, M)
    && forall p :: p in G && p in pages && pages[p].LeafNode? ==>
         p >= 0 && Less(G[p].lo, G[p].hi) && SortedItems(pages[p].items)
  }

  /** The leaves list M, whatever the separators above them say. */
  ghost predicate ListsAll(pages: Pages, M: map<int, int>) {
    exists G: Fences :: G.Keys == pages.Keys && Listing(pages, G, M)
  }

  ghost function Later(G: Fences, p: int): set<int>
    requires p in G
  {
    set q | q in G && Less(G[p].lo, G[q].lo)
  }

  lemma LaterShrinks(pages: Pages, G: Fences, M: map<int, int>, p: int)
    requires Listing(pages, G, M) && p in G && p in pages && pages[p].LeafNode? && pages[p].next != INVALID_PAGE_ID
    ensures var n := pages[p].next;
            n in G && n in pages && pages[n].LeafNode? && G[n].lo == G[p].hi && |Later(G, n)| < |Later(G, p)|
  {
    assert NextOk(pages, G, p);
    var n := pages[p].next;
    forall q | q in Later(G, n) ensures q in Later(G, p) - {n} { }
    SubsetSize(Later(G, n), Later(G, p) - {n});
  }

  lemma SubsetSize(a: set<int>, b: set<int>)
    requires a <= b
    ensures |a| <= |b|
  {
    assert a + (b - a) == b;
  }

  /** The pairs met by walking the chain from leaf p to its end. */
  ghost function ChainItems(pages: Pages, G: Fences, M: map<int, int>, p: int): seq<Item>
    requires Listing(pages, G, M) && p in G && p in pages && pages[p].LeafNode?
    decreases |Later(G, p)|
  {
    if pages[p].next == INVALID_PAGE_ID then pages[p].items
    else
      LaterShrinks(pages, G, M, p);
      pages[p].items + ChainItems(pages, G, M, pages[p].next)
  }

  /** Walking the chain lists, in strictly ascending key order, every pair from p's lower fence on. */
  lemma {:induction false} ChainLists(pages: Pages, G: Fences, M: map<int, int>, p: int)
    requires Listing(pages, G, M) && p in G && p in pages && pages[p].LeafNode?
    ensures var s := ChainItems(pages, G, M, p);
            && SortedItems(s)
            && (forall i :: 0 <= i < |s| ==> LeKey(G[p].lo, s[i].key) && s[i].key in M && M[s[i].key] == s[i].val)
            && (forall k :: k in M && LeKey(G[p].lo, k) ==> HasKey(s, k))
    decreases |Later(G, p)|
  {
    var items, n := pages[p].items, pages[p].next;
    assert NextOk(pages, G, p) && LeafHolds(pages, G, M, p);
    if n != INVALID_PAGE_ID {
      LaterShrinks(pages, G, M, p);
      ChainLists(pages, G, M, n);
      JoinLists(items, ChainItems(pages, G, M, n), G[p], M);
    }
  }

  /** The pairs of a leaf followed by those from its upper fence on. */
  lemma JoinLists(items: seq<Item>, rest: seq<Item>, f: Fence, M: map<int, int>)
    requires SortedItems(items) && Holds(items, f, M) && SortedItems(rest) && Less(f.lo, f.hi)
    requires forall i :: 0 <= i < |rest| ==>
      LeKey(f.hi, rest[i].key) && rest[i].key in M && M[rest[i].key] == rest[i].val
    requires forall k :: k in M && LeKey(f.hi, k) ==> HasKey(rest, k)
    ensures SortedItems(items + rest)
    ensures forall i :: 0 <= i < |items + rest| ==>
      LeKey(f.lo, (items + rest)[i].key) && (items + rest)[i].key in M
        && M[(items + rest)[i].key] == (items + rest)[i].val
    ensures forall k :: k in M && LeKey(f.lo, k) ==> HasKey(items + rest, k)
  {
    var s := items + rest;
    forall k | k in M && LeKey(f.lo, k) ensures HasKey(s, k) {
      if GtKey(f.hi, k) {
        var i :| 0 <= i < |items| && items[i].key == k;
        assert s[i].key == k;
      } else {
        var i :| 0 <= i < |rest| && rest[i].key == k;
        assert s[|items| + i].key == k;
      }
    }
  }

  // ----- borrowing from the right leaf ------------------------------------------------------

  /** Leaf `leaf` is underfull, is its parent's first child, and cannot merge with the second. */
  ghost predicate BorrowsRight(pages: Pages, lim: Limits, leaf: int) {
    && leaf in pages && pages[leaf].LeafNode? && |pages[leaf].items| < lim.leafMax / 2
    && var p := pages[leaf].parent;
       && p in pages && pages[p].InternalNode? && |pages[p].entries| > 1 && pages[p].entries[0].child == leaf
       && var r := pages[p].entries[1].child;
          r in pages && pages[r].LeafNode? && |pages[r].items| + |pages[leaf].items| > lim.leafMax
  }

  /** After the borrow the moved key is its own separator: a search for it is sent right and fails,
      and every other key is found as before. */
  lemma BorrowRightFinds(pages: Pages, root: int, F: Fences, G: Fences, M: map<int, int>, l: int, r: int, x: int)
    requires Shape(pages, root, F, Linked) && Listing(pages, G, M) && l in F && r in F && l in G && r in G && l != r
    requires l in pages && r in pages && pages[l].LeafNode? && pages[r].LeafNode?
    requires forall q :: q in F && q != l && q != r ==> q in G && F[q] == G[q]
    requires F[l] == G[l].(hi := At(x)) && F[r] == G[r].(lo := At(x)) && G[l].hi == G[r].lo && Less(At(x), G[r].lo)
    requires |pages[l].items| > 0 && pages[l].items[|pages[l].items| - 1].key == x
    ensures SearchLoses(pages, F, M, x) && !SearchAgrees(pages, F, M)
  {
    assert LeafHolds(pages, G, M, l) && LeafHolds(pages, G, M, r);
    assert PageOk(pages, root, F, Linked, root) && PageOk(pages, root, F, Linked, r);
    forall k, v | Finds(pages, F, k, v) ensures k in M && k != x && M[k] == v {
      var p :| p in F && p in pages && pages[p].LeafNode? && Within(F[p], k) && Item(k, v) in pages[p].items;
      assert LeafHolds(pages, G, M, p) && PageOk(pages, root, F, Linked, p);
      if k == x { UniqueAtLevel(pages, root, F, p, r, k); }
    }
    forall k | k in M && k != x ensures Finds(pages, F, k, M[k]) {
      var p := LeafFor(pages, root, F, root, k);
      assert LeafHolds(pages, G, M, p);
      assert Within(G[l], k) ==> HasKey(pages[l].items, k);
      assert Within(G[p], k);
      var i :| 0 <= i < |pages[p].items| && pages[p].items[i].key == k;
      assert pages[p].items[i] == Item(k, M[k]);
    }
    assert !Finds(pages, F, x, M[x]);
  }

  // An example: page 0 is the root with separator 3, leaf 1 holds 1 and 2, leaf 2 holds 3 to 6.

  function LeftItems(): seq<Item> { [Item(1, 1), Item(2, 2)] }

  function RightItems(): seq<Item> { [Item(3, 3), Item(4, 4), Item(5, 5), Item(6, 6)] }

  function ExamplePages(): Pages {
    map[0 := InternalNode(INVALID_PAGE_ID, [Entry(0, 1), Entry(3, 2)]), 1 := LeafNode(0, 2, LeftItems()),
        2 := LeafNode(0, INVALID_PAGE_ID, RightItems())]
  }

  function ExampleFences(): Fences {
    map[0 := Fence(MinusInf, PlusInf, 1), 1 := Fence(MinusInf, At(3), 0), 2 := Fence(At(3), PlusInf, 0)]
  }

  function ExampleMap(): map<int, int> { map[1 := 1, 2 := 2, 3 := 3, 4 := 4, 5 := 5, 6 := 6] }

  lemma ExampleShape()
    ensures Shape(ExamplePages(), 0, ExampleFences(), Linked) && Chained(ExamplePages(), ExampleFences())
  {
    var pages, F := ExamplePages(), ExampleFences();
    assert IsChild(pages, 0, 0, 1) && IsChild(pages, 0, 1, 2);
    assert EdgeOk(pages, F, Linked, 0, 0) && EdgeOk(pages, F, Linked, 0, 1);
    assert PageOk(pages, 0, F, Linked, 0) && PageOk(pages, 0, F, Linked, 1) && PageOk(pages, 0, F, Linked, 2);
  }

  lemma ExampleLeft()
    ensures Holds(LeftItems(), Fence(MinusInf, At(3), 0), ExampleMap())
  {
    var s := LeftItems();
    assert s[0].key == 1 && s[1].key == 2;
  }

  lemma ExampleRight()
    ensures Holds(RightItems(), Fence(At(3), PlusInf, 0), ExampleMap())
  {
    var s := RightItems();
    assert s[0].key == 3 && s[1].key == 4 && s[2].key == 5 && s[3].key == 6;
  }

  lemma ExampleHolds()
    ensures Agrees(ExamplePages(), ExampleFences(), ExampleMap())
  {
    ExampleLeft();
    ExampleRight();
    var pages, F, M := ExamplePages(), ExampleFences(), ExampleMap();
    assert LeafHolds(pages, F, M, 0) && LeafHolds(pages, F, M, 1) && LeafHolds(pages, F, M, 2);
  }

  /** With four pairs to a leaf that tree is well formed, and removing key 1 makes leaf 1 borrow from leaf 2. */
  lemma BorrowRightExample()
    ensures Limits(4, 4).Valid() && TreeOk(ExamplePages(), 0, ExampleFences(), Linked, ExampleMap(), Limits(4, 4))
    ensures HasKey(LeftItems(), 1)
      && BorrowsRight(PutItems(ExamplePages(), 1, RemoveItem(LeftItems(), 1)), Limits(4, 4), 1)
  {
    ExampleShape();
    ExampleHolds();
    ExampleRemoval();
  }

  lemma ExampleRemoval()
    ensures HasKey(LeftItems(), 1) && RemoveItem(LeftItems(), 1) == [Item(2, 2)]
  {
    assert LeftItems()[0].key == 1;
    KeyIndexUnique(LeftItems(), 1, 0);
  }
}
