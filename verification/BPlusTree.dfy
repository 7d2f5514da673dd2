/** The B+ tree index: search, insertion with upward splits, removal with merge and borrow. */
module BPlusTreeIndex {
  import opened Config
  import opened BTreeNodes
  import opened BTreeShape
  import opened BTreeGrow
  import opened BTreeShrink
  import opened BTreeBorrow
  import opened BTreeSteps
  import opened BTreeSearch

  /** The copy made before an internal page splits: everything but entry 0, with the new
      separator and child placed right after the page that was split. */
  method CopyWithNewChild(es: seq<Entry>, left: int, k: int, right: int) returns (copy: seq<Entry>)
    requires exists i :: 0 <= i < |es| && es[i].child == left
    requires forall i, j :: 0 <= i < j < |es| ==> es[i].child != es[j].child
    ensures copy == InsertEntry(es, ValueIndex(es, left), Entry(k, right))[1..]
  {
    copy := [];
    var at := ValueIndex(es, left);
    ghost var want := InsertEntry(es, at, Entry(k, right));
    for i := 1 to |es| + 1
      invariant copy == if i <= at + 1 then want[1..i] else if i <= |es| then want[1..i + 1] else want[1..]
    {
      if es[i - 1].child == left {
        copy := copy + [Entry(k, right)];
      }
      if i < |es| {
        copy := copy + [es[i]];
      }
    }
  }

  lemma HeadAndHalves(full: seq<Entry>, copy: seq<Entry>, i: nat)
    requires |full| > 0 && copy == full[1..] && i <= |copy|
    ensures ([full[0]] + copy[..i]) + copy[i..] == full
  {
    assert copy[..i] + copy[i..] == copy;
  }

  lemma InsertEntryEnds(es: seq<Entry>, at: nat, e: Entry)
    requires at < |es|
    ensures |InsertEntry(es, at, e)| == |es| + 1 && InsertEntry(es, at, e)[0] == es[0]
  {
  }

  /** How the entries of a full internal page are shared out once it has taken one more child. */
  method SplitEntries(es: seq<Entry>, left: int, k: int, right: int) returns (kept: seq<Entry>, moved: seq<Entry>)
    requires exists i :: 0 <= i < |es| && es[i].child == left
    requires forall i, j :: 0 <= i < j < |es| ==> es[i].child != es[j].child
    ensures kept + moved == InsertEntry(es, ValueIndex(es, left), Entry(k, right))
    ensures |kept| == |es| / 2 + 1 && |moved| == |es| - |es| / 2
  {
    var copy := CopyWithNewChild(es, left, k, right);
    InsertEntryEnds(es, ValueIndex(es, left), Entry(k, right));
    kept, moved := Halves(es[0], copy, InsertEntry(es, ValueIndex(es, left), Entry(k, right)));
  }

  /** The larger half of the copy goes to the new page; the rest goes back behind entry 0. */
  method Halves(first: Entry, copy: seq<Entry>, ghost full: seq<Entry>) returns (kept: seq<Entry>, moved: seq<Entry>)
    requires |full| == |copy| + 1 && full[0] == first && copy == full[1..]
    ensures kept + moved == full && |kept| == |copy| / 2 + 1 && |moved| == |copy| - |copy| / 2
  {
    var half := (|copy| + 1) / 2;
    moved := copy[|copy| - half..];
    kept := [first] + copy[..|copy| - half];
    HeadAndHalves(full, copy, |copy| - half);
  }

  /** The page updates of an internal split: `kept` stays in p, `moved` goes to the new page. */
  function SplitPages(pages: Pages, left: int, right: int, k: int, p: int,
                      kept: seq<Entry>, moved: seq<Entry>, right': int): Pages
    requires left in pages && right in pages && p in pages && pages[p].InternalNode? && |moved| > 0
  {
    var a := Reparent(pages, Children(moved), right');
    var b := a[p := a[p].(entries := kept)][right' := InternalNode(INVALID_PAGE_ID, moved)];
    if k < moved[0].key then b[right := b[right].(parent := p)]
    else if k == moved[0].key then b[right := b[right].(parent := right')]
    else b[right := b[right].(parent := right')][left := b[left].(parent := right')]
  }

  lemma SplitPagesEqual(pages: Pages, left: int, right: int, k: int, p: int, i: nat, m: nat, right': int)
    requires left in pages && right in pages && p in pages && pages[p].InternalNode? && right' !in pages
    requires left != right && p != left && p != right && i < |pages[p].entries| && 1 <= m <= |pages[p].entries|
    requires var moved := InsertEntry(pages[p].entries, i, Entry(k, right))[m..];
             && (left in Children(moved) <==> i >= m) && (right in Children(moved) <==> i + 1 >= m)
             && p !in Children(moved)
             && (k < moved[0].key <==> i + 1 < m) && (k == moved[0].key <==> i + 1 == m)
    ensures var full := InsertEntry(pages[p].entries, i, Entry(k, right));
            SplitPages(pages, left, right, k, p, full[..m], full[m..], right')
            == SplitInternal(LinkChild(pages, p, i, k, right), p, m, right')
  {
    var full := InsertEntry(pages[p].entries, i, Entry(k, right));
    var linked := LinkChild(pages, p, i, k, right);
    assert linked[p].entries == full;
    var lhs := SplitPages(pages, left, right, k, p, full[..m], full[m..], right');
    var rhs := SplitInternal(linked, p, m, right');
    assert lhs.Keys == rhs.Keys;
    forall q | q in lhs ensures lhs[q] == rhs[q] {
      if q == left || q == right || q == p || q == right' { } else { assert linked[q] == pages[q]; }
    }
  }

  /** Those updates amount to linking the child first and cutting the overfull page afterwards. */
  lemma SplitPagesIs(pages: Pages, root: int, F: Fences, pend: Pending, k: int, p: int, i: nat, m: nat, right': int)
    requires Shape(pages, root, F, pend) && pend.Unlinked? && pend.left != root && F[pend.right].lo == At(k)
    requires p in pages && p in F && pages[p].InternalNode? && i < |pages[p].entries|
    requires pages[p].entries[i].child == pend.left && pend.left in pages && pend.right in pages
    requires 1 <= m <= |pages[p].entries| && right' !in pages
    ensures var full := InsertEntry(pages[p].entries, i, Entry(k, pend.right));
            SplitPages(pages, pend.left, pend.right, k, p, full[..m], full[m..], right')
            == SplitInternal(LinkChild(pages, p, i, k, pend.right), p, m, right')
  {
    var full := InsertEntry(pages[p].entries, i, Entry(k, pend.right));
    var linked, moved := LinkChild(pages, p, i, k, pend.right), full[m..];
    assert PageOk(pages, root, F, pend, p) && EdgeOk(pages, F, pend, p, i);
    LinkChildShape(pages, root, F, pend, k, p, i);
    DistinctChildren(linked, root, F, Linked, p);
    assert PageOk(linked, root, F, Linked, p);
    assert linked[p].entries == full;
    forall j | 0 <= j < |full| ensures full[j].child != p { assert EdgeOk(linked, F, Linked, p, j); }
    forall j | 0 <= j < |full| ensures full[j].child in Children(moved) <==> j >= m {
      if j >= m { assert moved[j - m] == full[j]; }
    }
    assert full[i].child == pend.left && full[i + 1] == Entry(k, pend.right) && moved[0] == full[m];
    SplitPagesEqual(pages, pend.left, pend.right, k, p, i, m, right');
  }

  /** What the split of p into m entries and the rest in page right' leaves behind. */
  ghost predicate SplitResult(pages: Pages, root: int, F: Fences, p: int, m: nat, right': int, pages': Pages,
      F': Fences) {
    && p in F && p in pages && pages[p].InternalNode?
    && Shape(pages', root, F', Unlinked(p, right'))
    && SameLeaves(pages, F, pages', F') && OnlyParents(pages, F, pages', {p, right'})
    && KeptAbove(pages, F, pages', F[p].level)
    && p in pages' && pages'[p].InternalNode? && |pages'[p].entries| == m
    && right' in pages' && pages'[right'].InternalNode? && |pages'[right'].entries| == |pages[p].entries| + 1 - m
    && pages'.Keys == pages.Keys + {right'} && F'.Keys == F.Keys + {right'}
  }

  lemma FramesCompose(pages: Pages, F: Fences, linked: Pages, pages': Pages, F': Fences, p: int, right': int)
    requires p in F && p in pages && pages[p].InternalNode? && right' !in pages && F.Keys == pages.Keys == linked.Keys
    requires SameLeaves(pages, F, linked, F) && SameLeaves(linked, F, pages', F')
    requires OnlyParents(pages, F, linked, {p}) && OnlyParents(linked, F, pages', {p})
    requires KeptAbove(pages, F, linked, F[p].level) && KeptAbove(linked, F, pages', F[p].level)
    ensures SameLeaves(pages, F, pages', F') && OnlyParents(pages, F, pages', {p, right'})
    ensures KeptAbove(pages, F, pages', F[p].level)
  {
  }

  lemma SplitParentFrame(pages: Pages, root: int, F: Fences, pend: Pending, k: int, p: int, i: nat, m: nat, right': int)
    requires Shape(pages, root, F, pend) && pend.Unlinked? && pend.left != root && F[pend.right].lo == At(k)
    requires p in pages && p in F && pages[p].InternalNode? && i < |pages[p].entries| && p != pend.right
    requires pages[p].entries[i].child == pend.left && pages.Keys == F.Keys
    requires 1 <= m <= |pages[p].entries| && right' !in pages && right' >= 0
    ensures var linked := LinkChild(pages, p, i, k, pend.right);
            SplitResult(pages, root, F, p, m, right', SplitInternal(linked, p, m, right'),
              CutFence(F, p, linked[p].entries[m].key, right'))
  {
    var linked := LinkChild(pages, p, i, k, pend.right);
    LinkChildShape(pages, root, F, pend, k, p, i);
    assert F[pend.right].level < F[p].level by {
      assert PageOk(pages, root, F, pend, p) && EdgeOk(pages, F, pend, p, i);
    }
    assert OnlyParents(pages, F, linked, {p}) && SameLeaves(pages, F, linked, F)
      && KeptAbove(pages, F, linked, F[p].level);
    SplitResultOf(pages, root, F, linked, p, m, right');
  }

  lemma SplitResultOf(pages: Pages, root: int, F: Fences, linked: Pages, p: int, m: nat, right': int)
    requires CanSplit(linked, root, F, p, m, right') && pages.Keys == linked.Keys == F.Keys
    requires pages[p].InternalNode? && |linked[p].entries| == |pages[p].entries| + 1
    requires OnlyParents(pages, F, linked, {p}) && SameLeaves(pages, F, linked, F)
      && KeptAbove(pages, F, linked, F[p].level)
    ensures SplitResult(pages, root, F, p, m, right', SplitInternal(linked, p, m, right'),
      CutFence(F, p, linked[p].entries[m].key, right'))
  {
    SplitInternalShape(linked, root, F, p, m, right');
    SplitInternalFrame(linked, root, F, p, m, right');
    SplitInternalAt(linked, root, F, p, m, right', p);
    var pages', F' := SplitInternal(linked, p, m, right'), CutFence(F, p, linked[p].entries[m].key, right');
    FramesCompose(pages, F, linked, pages', F', p, right');
  }

  lemma SplitPagesResult(pages: Pages, root: int, F: Fences, pend: Pending, k: int, p: int, i: nat,
                         kept: seq<Entry>, moved: seq<Entry>, right': int)
    requires Shape(pages, root, F, pend) && pend.Unlinked? && pend.left != root && F[pend.right].lo == At(k)
    requires p in pages && p in F && pages[p].InternalNode? && i < |pages[p].entries|
    requires pages[p].entries[i].child == pend.left && pages.Keys == F.Keys
    requires |kept| > 0 && |moved| > 0 && kept + moved == InsertEntry(pages[p].entries, i, Entry(k, pend.right))
    requires right' !in pages && right' >= 0
    ensures SplitResult(pages, root, F, p, |kept|, right',
      SplitPages(pages, pend.left, pend.right, k, p, kept, moved, right'),
                        CutFence(F, p, moved[0].key, right'))
  {
    var full := kept + moved;
    assert full[..|kept|] == kept && full[|kept|..] == moved && full[|kept|] == moved[0];
    assert p != pend.right by { assert PageOk(pages, root, F, pend, p) && EdgeOk(pages, F, pend, p, i); }
    SplitPagesIs(pages, root, F, pend, k, p, i, |kept|, right');
    SplitParentFrame(pages, root, F, pend, k, p, i, |kept|, right');
  }

  method SplitInternalPage(pages: Pages, ghost root: int, ghost F: Fences, left: int, k: int, right: int,
                           p: int, ghost i: nat, right': int)
    returns (pages': Pages, k': int)
    requires Shape(pages, root, F, Unlinked(left, right)) && left != root && F[right].lo == At(k)
    requires p in pages && p in F && pages[p].InternalNode? && i < |pages[p].entries| && |pages[p].entries| >= 2
    requires pages[p].entries[i].child == left && pages.Keys == F.Keys && right' !in pages && right' >= 0
    ensures SplitResult(pages, root, F, p, |pages[p].entries| / 2 + 1, right', pages', CutFence(F, p, k', right'))
  {
    ghost var pend := Unlinked(left, right);
    DistinctChildren(pages, root, F, pend, p);
    var kept, moved := SplitEntries(pages[p].entries, left, k, right);
    pages', k' := SplitPages(pages, left, right, k, p, kept, moved, right'), moved[0].key;
    SplitPagesResult(pages, root, F, pend, k, p, i, kept, moved, right');
  }

  /** A full parent that takes a child and splits leaves a good tree with its right half pending. */
  lemma SplitParentOk(pages: Pages, root: int, F: Fences, pend: Pending, M: map<int, int>, lim: Limits,
                      p: int, right': int, pages': Pages, F': Fences)
    requires lim.Valid() && TreeOk(pages, root, F, pend, M, lim)
    requires p in pages && pages[p].InternalNode? && |pages[p].entries| == lim.internalMax
    requires SplitResult(pages, root, F, p, lim.internalMax / 2 + 1, right', pages', F')
    requires pages.Keys == F.Keys
    ensures TreeOk(pages', root, F', Unlinked(p, right'), M, lim)
    ensures SizeOk(pages'[p], false, lim)
  {
    SameLeavesKeep(pages, F, pages', F', M);
    forall q | q in F' ensures q >= 0 { assert PageOk(pages', root, F', Unlinked(p, right'), q); }
    SizesCarry(pages, root, F, pages', F', {p, right'}, lim, INVALID_PAGE_ID, INVALID_PAGE_ID);
  }

  method SplitFullParent(pages: Pages, ghost root: int, ghost F: Fences, ghost M: map<int, int>, ghost lim: Limits,
                         left: int, k: int, right: int, p: int, ghost i: nat, right': int)
    returns (pages': Pages, k': int)
    requires lim.Valid() && TreeOk(pages, root, F, Unlinked(left, right), M, lim) && left != root
      && F[right].lo == At(k)
    requires p in pages && p in F && pages[p].InternalNode? && i < |pages[p].entries| == lim.internalMax
    requires pages[p].entries[i].child == left && pages.Keys == F.Keys && right' !in pages && right' >= 0
    ensures TreeOk(pages', root, CutFence(F, p, k', right'), Unlinked(p, right'), M, lim)
    ensures pages'.Keys == pages.Keys + {right'} && p in pages' && SizeOk(pages'[p], false, lim)
      && KeptAbove(pages, F, pages', F[p].level)
  {
    pages', k' := SplitInternalPage(pages, root, F, left, k, right, p, i, right');
    SplitParentOk(pages, root, F, Unlinked(left, right), M, lim, p, right', pages', CutFence(F, p, k', right'));
  }

  /** A split root and its new right half under a new root. */
  lemma GrowRootOk(pages: Pages, root: int, F: Fences, M: map<int, int>, lim: Limits, left: int, key: int, right: int,
      root': int)
    requires TreeOk(pages, root, F, Unlinked(left, right), M, lim) && F[right].lo == At(key) && lim.Valid()
    requires left in pages && SizeOk(pages[left], false, lim) && pages[left].parent == INVALID_PAGE_ID && left == root
    requires pages.Keys == F.Keys && root' !in F && root' >= 0
    ensures TreeOk(NewRoot(pages, root', left, key, right), root',
      F[root' := Fence(MinusInf, PlusInf, F[root].level + 1)], Linked, M, lim)
  {
    var pages', F' := NewRoot(pages, root', left, key, right), F[root' := Fence(MinusInf, PlusInf, F[root].level + 1)];
    assert PageOk(pages, root, F, Unlinked(left, right), left) && PageOk(pages, root, F, Unlinked(left, right), right);
    NewRootShape(pages, root, F, Unlinked(left, right), key, root');
    SameLeavesKeep(pages, F, pages', F', M);
    forall q | q in F ensures q >= 0 { assert PageOk(pages, root, F, Unlinked(left, right), q); }
    GrowRootSizes(pages, root, F, lim, left, key, right, root');
  }

  lemma GrowRootSizes(pages: Pages, root: int, F: Fences, lim: Limits, left: int, key: int, right: int, root': int)
    requires SizesExcept(pages, root, F, lim, INVALID_PAGE_ID) && lim.Valid() && left == root && pages.Keys == F.Keys
      && root' !in F
    requires left in pages && right in pages && SizeOk(pages[left], false, lim)
      && forall q :: q in F ==> q != INVALID_PAGE_ID
    ensures SizesExcept(NewRoot(pages, root', left, key, right), root',
      F[root' := Fence(MinusInf, PlusInf, F[root].level + 1)], lim, INVALID_PAGE_ID)
  {
    var pages', F' := NewRoot(pages, root', left, key, right), F[root' := Fence(MinusInf, PlusInf, F[root].level + 1)];
    forall q | q in F' && q in pages' ensures SizeOk(pages'[q], q == root', lim) {
      if q != root' && q != left { assert SizeOk(pages[q], q == root, lim); }
    }
  }

  /** The parent is found by its child's parent id; the root is the page without one. */
  lemma LeftIsRoot(pages: Pages, root: int, F: Fences, pend: Pending, left: int)
    requires Shape(pages, root, F, pend) && pend.Unlinked? && pend.left == left && left in pages
      && pages[left].parent == INVALID_PAGE_ID
    ensures left == root && forall a :: a in F ==> F[a].level <= F[left].level
  {
    forall a | a in F ensures F[a].level <= F[root].level && a >= 0 { assert PageOk(pages, root, F, pend, a); }
    assert PageOk(pages, root, F, pend, left) && PageOk(pages, root, F, pend, root);
    if left != root {
      var p, i := ParentOf(pages, root, F, pend, left);
    }
  }

  /** The new child linked into a parent with room. */
  lemma LinkOk(pages: Pages, root: int, F: Fences, M: map<int, int>, lim: Limits, left: int, key: int, right: int,
      p: int, i: nat)
    requires TreeOk(pages, root, F, Unlinked(left, right), M, lim) && F[right].lo == At(key) && left != root
      && left in F && pages.Keys == F.Keys
    requires p in F && p in pages && pages[p].InternalNode? && i < |pages[p].entries| < lim.internalMax
      && pages[p].entries[i].child == left
    requires F[left].level + 1 == F[p].level && SizeOk(pages[left], false, lim)
    ensures TreeOk(LinkChild(pages, p, i, key, right), root, F, Linked, M, lim)
    ensures KeptAbove(pages, F, LinkChild(pages, p, i, key, right), F[left].level + 1)
  {
    var pend, pages' := Unlinked(left, right), LinkChild(pages, p, i, key, right);
    assert PageOk(pages, root, F, pend, right) && PageOk(pages, root, F, pend, root);
    LinkChildShape(pages, root, F, pend, key, p, i);
    SameLeavesKeep(pages, F, pages', F, M);
    forall q | q in F && q in pages' ensures SizeOk(pages'[q], q == root, lim) {
      assert PageOk(pages, root, F, pend, q);
      assert SizeOk(pages[q], q == root, lim);
    }
  }

  /** The parent of a page on the search path is the only page of its level on that path. */
  lemma OnlyParentOnPath(pages: Pages, root: int, F: Fences, p: int, i: nat, k: int)
    requires Shape(pages, root, F, Linked) && p in F && p in pages && pages[p].InternalNode? && i < |pages[p].entries|
    requires pages[p].entries[i].child in F && Within(F[pages[p].entries[i].child], k)
    ensures Within(F[p], k) && forall a :: a in F && F[a].level == F[p].level && Within(F[a], k) ==> a == p
  {
    ParentWithin(pages, root, F, p, i, k);
    forall a | a in F && F[a].level == F[p].level && Within(F[a], k) ensures a == p {
      UniqueAtLevel(pages, root, F, a, p, k);
    }
  }

  lemma OnlyLeaf(pages: Pages, root: int, F: Fences, p: int, k: int)
    requires Shape(pages, root, F, Linked) && p in F && p in pages && pages[p].LeafNode? && Within(F[p], k)
    ensures forall q :: q in F && q in pages && pages[q].LeafNode? && Within(F[q], k) ==> q == p
  {
    assert PageOk(pages, root, F, Linked, p);
    forall q | q in F && q in pages && pages[q].LeafNode? && Within(F[q], k) ensures q == p {
      assert PageOk(pages, root, F, Linked, q);
      UniqueAtLevel(pages, root, F, q, p, k);
    }
  }

  lemma BorrowRightInside(pages: Pages, root: int, F: Fences, M: map<int, int>, p: int, i: nat, l: int, r: int)
    requires Shape(pages, root, F, Linked) && Agrees(pages, F, M)
    requires Siblings(pages, F, p, i, l, r) && pages[l].LeafNode? && pages[r].LeafNode? && |pages[r].items| > 1
    ensures var rs := pages[r].items;
            Less(F[l].lo, At(rs[0].key)) && rs[0].key < rs[1].key && Less(At(rs[1].key), F[r].hi)
  {
    SiblingFacts(pages, root, F, p, i, l, r);
    assert PageOk(pages, root, F, Linked, l) && PageOk(pages, root, F, Linked, r) && LeafHolds(pages, F, M, r);
    assert Within(F[r], pages[r].items[0].key) && Within(F[r], pages[r].items[1].key);
  }

  /** With the second key of the right leaf as the fence between them, the leaves still list M. */
  lemma BorrowRightListing(pages: Pages, root: int, F: Fences, M: map<int, int>, p: int, i: nat, l: int, r: int,
      pages': Pages)
    returns (G: Fences)
    requires Shape(pages, root, F, Linked) && Chained(pages, F) && Agrees(pages, F, M) && pages.Keys == F.Keys
    requires Siblings(pages, F, p, i, l, r) && pages[l].LeafNode? && pages[r].LeafNode? && |pages[r].items| > 1
    requires pages' == RebalanceLeaf(pages, p, i, l, r, |pages[l].items| + 1, pages[r].items[0].key)
    ensures G == BorrowFence(F, l, r, pages[r].items[1].key) && Listing(pages', G, M)
  {
    var m, k := |pages[l].items| + 1, pages[r].items[1].key;
    SiblingFacts(pages, root, F, p, i, l, r);
    BorrowRightInside(pages, root, F, M, p, i, l, r);
    assert (pages[l].items + pages[r].items)[m] == pages[r].items[1];
    RebalanceLeafAgrees(pages, root, F, M, p, i, l, r, m, k);
    RebalanceLeafShape(pages, root, F, M, p, i, l, r, m, k);
    G := BorrowFence(F, l, r, k);
    var good := RebalanceLeaf(pages, p, i, l, r, m, k);
    assert SameLeaves(good, G, pages', G);
    SameLeavesKeep(good, G, pages', G, M);
    forall q | q in G && q in pages' && pages'[q].LeafNode?
      ensures q >= 0 && Less(G[q].lo, G[q].hi) && SortedItems(pages'[q].items)
    {
      assert PageOk(good, root, G, Linked, q);
    }
  }

  /** Borrowing from the left leaf keeps everything in order. */
  lemma BorrowLeftStep(pages: Pages, root: int, F: Fences, M: map<int, int>, p: int, i: nat, l: int, r: int)
    requires Shape(pages, root, F, Linked) && Chained(pages, F) && Agrees(pages, F, M) && pages.Keys == F.Keys
    requires Siblings(pages, F, p, i, l, r) && pages[l].LeafNode? && pages[r].LeafNode? && |pages[l].items| > 1
    ensures var k := pages[l].items[|pages[l].items| - 1].key;
            var pages', F' := BorrowLastPair(pages, p, i, l, r), BorrowFence(F, l, r, k);
            && StepBelow(pages, root, F, pages', F', p, {l, r, p}) && Agrees(pages', F', M)
            && pages'[l].LeafNode? && |pages'[l].items| == |pages[l].items| - 1
            && pages'[r].LeafNode? && |pages'[r].items| == |pages[r].items| + 1
            && pages'[p].InternalNode? && |pages'[p].entries| == |pages[p].entries|
  {
    var m := |pages[l].items| - 1;
    assert (pages[l].items + pages[r].items)[m] == pages[l].items[m];
    BorrowPairsAre(pages, p, i, l, r);
    RebalanceLeafAgrees(pages, root, F, M, p, i, l, r, m, pages[l].items[m].key);
    RebalanceLeafStep(pages, root, F, M, p, i, l, r, m, pages[l].items[m].key);
  }

  /** Borrowing from the right leaf, as the code does it. */
  lemma BorrowRightStep(pages: Pages, root: int, F: Fences, M: map<int, int>, p: int, i: nat, l: int, r: int)
    requires Shape(pages, root, F, Linked) && Chained(pages, F) && Agrees(pages, F, M) && pages.Keys == F.Keys
    requires Siblings(pages, F, p, i, l, r) && pages[l].LeafNode? && pages[r].LeafNode? && |pages[r].items| > 1
    ensures var x := pages[r].items[0].key;
            var pages', F' := BorrowFirstPair(pages, p, i, l, r), BorrowFence(F, l, r, x);
            && StepBelow(pages, root, F, pages', F', p, {l, r, p})
            && pages'[l].LeafNode? && |pages'[l].items| == |pages[l].items| + 1
            && pages'[r].LeafNode? && |pages'[r].items| == |pages[r].items| - 1
            && pages'[p].InternalNode? && |pages'[p].entries| == |pages[p].entries|
            && SearchLoses(pages', F', M, x) && !SearchAgrees(pages', F', M) && ListsAll(pages', M)
  {
    var m, x := |pages[l].items| + 1, pages[r].items[0].key;
    SiblingFacts(pages, root, F, p, i, l, r);
    BorrowRightInside(pages, root, F, M, p, i, l, r);
    RebalanceLeafStep(pages, root, F, M, p, i, l, r, m, x);
    var pages', F' := RebalanceLeaf(pages, p, i, l, r, m, x), BorrowFence(F, l, r, x);
    var G := BorrowRightListing(pages, root, F, M, p, i, l, r, pages');
    BorrowPairsAre(pages, p, i, l, r);
    assert pages'[l].items[m - 1] == pages[r].items[0];
    BorrowRightFinds(pages', root, F', G, M, l, r, x);
    assert G.Keys == pages'.Keys;
  }

  lemma RootByParent(pages: Pages, root: int, F: Fences, p: int)
    requires Shape(pages, root, F, Linked) && p in F && p in pages && pages[p].parent == INVALID_PAGE_ID
    ensures p == root
  {
    forall q | q in F ensures q >= 0 { assert PageOk(pages, root, F, Linked, q); }
    assert PageOk(pages, root, F, Linked, p);
  }

  /** Adding a key to the leaf responsible for it, sizes aside. */
  lemma InsertItemOk(pages: Pages, root: int, F: Fences, M: map<int, int>, p: int, k: int, v: int)
    requires Shape(pages, root, F, Linked) && Chained(pages, F) && Agrees(pages, F, M)
    requires p in F && p in pages && pages[p].LeafNode? && Within(F[p], k) && k !in M
    ensures var pages' := PutItems(pages, p, InsertItem(pages[p].items, k, v));
            Shape(pages', root, F, Linked) && Chained(pages', F) && Agrees(pages', F, M[k := v])
  {
    assert PageOk(pages, root, F, Linked, p) && LeafHolds(pages, F, M, p);
    InsertHolds(pages[p].items, F[p], M, k, v);
    InsertItemSorted(pages[p].items, k, v);
    PutItemsShape(pages, root, F, p, InsertItem(pages[p].items, k, v));
    PutItemsAgrees(pages, root, F, p, k, InsertItem(pages[p].items, k, v), M, M[k := v]);
  }

  /** Dropping a key from the leaf responsible for it, sizes aside. */
  lemma RemoveItemOk(pages: Pages, root: int, F: Fences, M: map<int, int>, p: int, k: int)
    requires Shape(pages, root, F, Linked) && Chained(pages, F) && Agrees(pages, F, M)
    requires p in F && p in pages && pages[p].LeafNode? && Within(F[p], k)
    ensures var pages' := PutItems(pages, p, RemoveItem(pages[p].items, k));
            Shape(pages', root, F, Linked) && Chained(pages', F) && Agrees(pages', F, M - {k})
  {
    assert PageOk(pages, root, F, Linked, p) && LeafHolds(pages, F, M, p);
    RemoveHolds(pages[p].items, F[p], M, k);
    RemoveItemSorted(pages[p].items, k);
    PutItemsShape(pages, root, F, p, RemoveItem(pages[p].items, k));
    PutItemsAgrees(pages, root, F, p, k, RemoveItem(pages[p].items, k), M, M - {k});
  }

  /** Cutting a leaf in two, sizes aside. */
  lemma SplitLeafOk(pages: Pages, root: int, F: Fences, M: map<int, int>, p: int, m: nat, right: int)
    requires Shape(pages, root, F, Linked) && Chained(pages, F) && Agrees(pages, F, M)
    requires p in F && p in pages && pages[p].LeafNode? && 0 < m < |pages[p].items|
    requires right !in pages && right !in F && right >= 0
    ensures var pages', F' := SplitLeaf(pages, p, m, right), CutFence(F, p, pages[p].items[m].key, right);
            Shape(pages', root, F', Unlinked(p, right)) && Chained(pages', F') && Agrees(pages', F', M)
  {
    SplitLeafContents(pages, root, F, p, m, right, M);
    SplitLeafChained(pages, F, p, m, right, pages[p].items[m].key);
    SplitLeafShape(pages, root, F, p, m, right, pages[p].items[m].key);
  }

  /** The page updates of a leaf split, with the new page chained in after the old one. */
  function SplitLeafInto(pages: Pages, leaf: int, kept: seq<Item>, moved: seq<Item>, right: int): Pages
    requires leaf in pages && pages[leaf].LeafNode? && |kept| > 0 && |moved| > 0
  {
    var n := pages[leaf];
    if kept[0].key < moved[0].key then
      pages[leaf := LeafNode(n.parent, right, kept)][right := LeafNode(INVALID_PAGE_ID, n.next, moved)]
    else
      pages[leaf := n.(items := kept)][right := LeafNode(INVALID_PAGE_ID, leaf, moved)]
  }

  /** A full leaf that takes a pair and splits leaves a good tree with its right half pending. */
  lemma SplitLeafStep(pages: Pages, root: int, F: Fences, M: map<int, int>, lim: Limits, leaf: int, k: int, v: int,
                      kept: seq<Item>, moved: seq<Item>, right: int)
    requires lim.Valid() && TreeOk(pages, root, F, Linked, M, lim) && pages.Keys == F.Keys
    requires leaf in F && pages[leaf].LeafNode? && Within(F[leaf], k) && k !in M
    requires kept + moved == InsertItem(pages[leaf].items, k, v) && |kept| > 0 && |moved| > 0
      && kept[0].key < moved[0].key
    requires lim.leafMax / 2 <= |kept| <= lim.leafMax && lim.leafMax / 2 <= |moved| <= lim.leafMax
    requires right !in pages && right >= 0
    ensures var pages', F' := SplitLeafInto(pages, leaf, kept, moved, right), CutFence(F, leaf, moved[0].key, right);
            TreeOk(pages', root, F', Unlinked(leaf, right), M[k := v], lim) && SizeOk(pages'[leaf], false, lim)
  {
    InsertItemOk(pages, root, F, M, leaf, k, v);
    var pages1 := PutItems(pages, leaf, kept + moved);
    SplitLeafOk(pages1, root, F, M[k := v], leaf, |kept|, right);
    assert (kept + moved)[..|kept|] == kept && (kept + moved)[|kept|..] == moved && (kept + moved)[|kept|] == moved[0];
    assert SplitLeafInto(pages, leaf, kept, moved, right) == SplitLeaf(pages1, leaf, |kept|, right);
  }

  /** How the pairs of a full leaf are shared out once it has taken one more. */
  method SplitItems(items: seq<Item>, k: int, v: int) returns (kept: seq<Item>, moved: seq<Item>)
    requires SortedItems(items) && |items| >= 2 && !HasKey(items, k)
    ensures kept + moved == InsertItem(items, k, v)
    ensures |items| / 2 <= |kept| <= |items| && |items| / 2 <= |moved| <= |items| && |kept| > 0 && |moved| > 0
    ensures kept[0].key < moved[0].key
  {
    var half := |items| / 2;
    kept, moved := items[..|items| - half], items[|items| - half..];
    assert items == kept + moved;
    InsertItemConcat(kept, moved, k, v);
    InsertItemSorted(items, k, v);
    if k < moved[0].key {
      kept := InsertItem(kept, k, v);
    } else {
      moved := InsertItem(moved, k, v);
    }
    ghost var all := InsertItem(items, k, v);
    assert kept[0] == all[0] && moved[0] == all[|kept|];
  }

  lemma OneLeafFor(pages: Pages, root: int, F: Fences, leaf: int, key: int)
    requires Shape(pages, root, F, Linked) && leaf in F && leaf in pages && pages[leaf].LeafNode?
      && Within(F[leaf], key)
    ensures F[leaf].level == 0 && forall a :: a in F && F[a].level == 0 && Within(F[a], key) ==> a == leaf
  {
    assert PageOk(pages, root, F, Linked, leaf);
    forall a | a in F && F[a].level == 0 && Within(F[a], key) ensures a == leaf {
      UniqueAtLevel(pages, root, F, a, leaf, key);
    }
  }

  /** A page that was insert-safe on the path of a full leaf lies above it and is as safe after the leaf's split. */
  lemma SafeAfterLeafSplit(pages: Pages, F: Fences, pages': Pages, F': Fences, lim: Limits, leaf: int, k: int,
      right: int, key: int, a: int)
    requires InsertSafe(pages, F, lim, key, a) && leaf in F && leaf in pages && pages[leaf].LeafNode?
      && |pages[leaf].items| == lim.leafMax
    requires F[leaf].level == 0 && (forall b :: b in F && F[b].level == 0 && Within(F[b], key) ==> b == leaf)
    requires F' == CutFence(F, leaf, k, right) && right !in F && pages.Keys == F.Keys && pages'.Keys == F'.Keys
    requires forall q :: q in F && q != leaf ==> pages'[q] == pages[q]
    ensures a != leaf && F[a].level > 0 && a in F' && F'[a].level == F[a].level && InsertSafe(pages', F', lim, key, a)
  {
  }

  lemma KeptThrough(pages: Pages, F: Fences, pages1: Pages, F1: Fences, pages2: Pages, leaf: int, level: nat)
    requires F.Keys <= F1.Keys && pages.Keys == F.Keys && pages1.Keys == F1.Keys && leaf in F && F[leaf].level == 0
    requires forall q :: q in F && q != leaf ==> pages1[q] == pages[q] && F1[q].level == F[q].level
    requires KeptAbove(pages1, F1, pages2, level)
    ensures KeptAbove(pages, F, pages2, level)
  {
  }

  class BPlusTree {
    const lim: Limits
    var pages: Pages
    var root: int
    var nextPageId: int
    ghost var F: Fences
    ghost var M: map<int, int>

    ghost predicate Allocated()
      reads this
    {
      lim.Valid() && nextPageId >= 0 && pages.Keys == F.Keys && forall p :: p in pages ==> 0 <= p < nextPageId
    }

    /** The pages form a balanced search tree, chained in key order, holding exactly M. */
    ghost predicate Valid()
      reads this
    {
      && Allocated()
      && if root == INVALID_PAGE_ID then F == map[] && forall k :: k !in M
         else
           && Shape(pages, root, F, Linked) && Chained(pages, F) && Agrees(pages, F, M)
           && SizesExcept(pages, root, F, lim, INVALID_PAGE_ID)
    }

    /** As Valid, but `right` has just been cut off `left` at separator k and awaits a parent. */
    ghost predicate Splitting(left: int, k: int, right: int)
      reads this
    {
      && Allocated() && Shape(pages, root, F, Unlinked(left, right)) && F[right].lo == At(k)
      && Chained(pages, F) && Agrees(pages, F, M) && SizesExcept(pages, root, F, lim, INVALID_PAGE_ID)
      && left in pages && SizeOk(pages[left], false, lim)
    }

    constructor (lim: Limits)
      requires lim.Valid()
      ensures Valid() && this.lim == lim && M == map[]
    {
      this.lim := lim;
      pages, root, nextPageId, F, M := map[], INVALID_PAGE_ID, 0, map[], map[];
    }

    /** The separators lead somewhere for every key, whatever the leaves hold. */
    ghost predicate Searchable()
      reads this
    {
      Allocated() && (root != INVALID_PAGE_ID ==> Shape(pages, root, F, Linked))
        && (root == INVALID_PAGE_ID ==> F == map[])
    }

    method FindLeafPage(key: int, leftMost: bool) returns (p: int)
      requires Searchable()
      ensures root == INVALID_PAGE_ID ==> p == INVALID_PAGE_ID
      ensures root != INVALID_PAGE_ID ==>
                && p in F && p in pages && pages[p].LeafNode?
                && (if leftMost then F[p].lo == MinusInf else Within(F[p], key))
    {
      p := root;
      if p == INVALID_PAGE_ID { return; }
      assert PageOk(pages, root, F, Linked, root);
      while pages[p].InternalNode?
        invariant p in F && p in pages
        invariant if leftMost then F[p].lo == MinusInf else Within(F[p], key)
        decreases F[p].level
      {
        assert PageOk(pages, root, F, Linked, p) && EdgeOk(pages, F, Linked, p, 0);
        var es := pages[p].entries;
        ghost var parent := p;
        if leftMost {
          p := es[0].child;
        } else {
          ChildWithin(pages, root, F, Linked, p, key);
          p := es[ChildIndex(es, key)].child;
        }
        assert pages[p].parent == parent;
      }
    }

    /** A point query: in a valid tree it answers as the map does. */
    method GetValue(key: int) returns (found: bool, value: int)
      requires Searchable()
      ensures found ==> Finds(pages, F, key, value)
      ensures !found ==> forall v :: !Finds(pages, F, key, v)
      ensures Valid() ==> (found <==> key in M) && (found ==> value == M[key])
    {
      found, value := false, 0;
      var p := FindLeafPage(key, false);
      if p != INVALID_PAGE_ID {
        assert PageOk(pages, root, F, Linked, p);
        var items := pages[p].items;
        var i := KeyIndex(items, key);
        if i < |items| && items[i].key == key {
          found, value := true, items[i].val;
          assert items[i] == Item(key, value) && items[i] in items;
          assert Finds(pages, F, key, value);
        } else {
          AbsentKey(items, key);
          forall v ensures !Finds(pages, F, key, v) {
            OnlyLeaf(pages, root, F, p, key);
          }
        }
        if Agrees(pages, F, M) {
          SearchIsMap(pages, root, F, M);
          assert key in M ==> Finds(pages, F, key, M[key]);
        }
      }
    }

    method StartNewTree(key: int, value: int)
      requires Valid() && root == INVALID_PAGE_ID
      modifies this
      ensures Valid() && root != INVALID_PAGE_ID && M == old(M)[key := value]
    {
      root := nextPageId;
      nextPageId := nextPageId + 1;
      pages := map[root := LeafNode(INVALID_PAGE_ID, INVALID_PAGE_ID, [Item(key, value)])];
      F := map[root := Fence(MinusInf, PlusInf, 0)];
      M := M[key := value];
      assert PageOk(pages, root, F, Linked, root) && NextOk(pages, F, root);
      assert LeafHolds(pages, F, M, root) by {
        assert pages[root].items[0].key == key;
      }
    }

    /** The split reached the root: a new root gets both halves. */
    method GrowRoot(left: int, key: int, right: int)
      requires Splitting(left, key, right) && pages[left].parent == INVALID_PAGE_ID
      modifies this
      ensures Valid() && root != INVALID_PAGE_ID && M == old(M)
      ensures forall a :: a in old(F) ==> old(F[a].level) <= old(F[left].level)
    {
      LeftIsRoot(pages, root, F, Unlinked(left, right), left);
      var root' := nextPageId;
      GrowRootOk(pages, root, F, M, lim, left, key, right, root');
      nextPageId := nextPageId + 1;
      pages := NewRoot(pages, root', left, key, right);
      F := F[root' := Fence(MinusInf, PlusInf, F[root].level + 1)];
      root := root';
    }

    /** The parent has room for one more child. */
    method LinkIntoParent(left: int, key: int, right: int)
      requires Splitting(left, key, right) && left != root
      requires pages[left].parent in pages && pages[pages[left].parent].InternalNode?
      requires |pages[pages[left].parent].entries| < lim.internalMax
      modifies this
      ensures Valid() && root == old(root) && root != INVALID_PAGE_ID && M == old(M) && F == old(F)
      ensures KeptAbove(old(pages), F, pages, F[left].level + 1)
    {
      ghost var q, j := ParentOf(pages, root, F, Unlinked(left, right), left);
      assert PageOk(pages, root, F, Unlinked(left, right), root);
      var p := pages[left].parent;
      var i := ValueIndex(pages[p].entries, left);
      assert i < |pages[p].entries|;
      LinkOk(pages, root, F, M, lim, left, key, right, p, i);
      pages := LinkChild(pages, p, i, key, right);
    }

    /** The parent is full: it takes the new child and is split in two itself. */
    method SplitParent(left: int, key: int, right: int) returns (p: int, key': int, right': int)
      requires Splitting(left, key, right) && left != root
      requires pages[left].parent in pages && pages[pages[left].parent].InternalNode?
      requires |pages[pages[left].parent].entries| == lim.internalMax
      modifies this
      ensures Splitting(p, key', right') && root == old(root) && M == old(M)
      ensures p == old(pages[left].parent) && p in old(F) && old(F[p].level) == old(F[left].level) + 1
      ensures F[p].lo == old(F[p].lo) && F[right'].hi == old(F[p].hi)
      ensures forall q :: q in old(F) && q != p ==> q in F && F[q] == old(F[q])
      ensures F[p].level == old(F[p].level)
      ensures KeptAbove(old(pages), old(F), pages, old(F[p].level))
    {
      ghost var q, i := ParentOf(pages, root, F, Unlinked(left, right), left);
      p := pages[left].parent;
      var copyPage := nextPageId;
      right' := copyPage + 1;
      nextPageId := copyPage + 2;
      pages, key' := SplitFullParent(pages, root, F, M, lim, left, key, right, p, i, right');
      F := CutFence(F, p, key', right');
    }

    /** Hands the new page `right` to the parent of `left`, splitting parents up to the root. */
    method InsertIntoParent(left: int, key: int, right: int, ghost k: int)
      requires Splitting(left, key, right)
      requires LeKey(F[left].lo, k) && GtKey(F[right].hi, k)
      modifies this
      ensures Valid() && root != INVALID_PAGE_ID && M == old(M)
      ensures forall a :: InsertSafe(old(pages), old(F), lim, k, a) && old(F)[a].level > old(F[left].level) ==>
                root == old(root) && KeptAbove(old(pages), old(F), pages, old(F)[a].level)
      decreases F[root].level - F[left].level
    {
      ghost var pend := Unlinked(left, right);
      if pages[left].parent == INVALID_PAGE_ID {
        GrowRoot(left, key, right);
      } else {
        assert PageOk(pages, root, F, pend, root);
        ghost var q, j := ParentOf(pages, root, F, pend, left);
        PendingParentWithin(pages, root, F, pend, q, j, k);
        forall a | a in F && F[a].level == F[q].level && Within(F[a], k) ensures a == q {
          assert PageOk(pages, root, F, pend, right);
          LinkChildShape(pages, root, F, pend, key, q, j);
          UniqueAtLevel(LinkChild(pages, q, j, key, right), root, F, a, q, k);
        }
        if |pages[pages[left].parent].entries| < lim.internalMax {
          LinkIntoParent(left, key, right);
        } else {
          assert SizeOk(pages[q], q == root, lim);
          var p, key', right' := SplitParent(left, key, right);
          ghost var pages1, F1 := pages, F;
          InsertIntoParent(p, key', right', k);
          forall a | InsertSafe(old(pages), old(F), lim, k, a) && old(F)[a].level > old(F[left].level)
            ensures root == old(root) && KeptAbove(old(pages), old(F), pages, old(F)[a].level)
          {
            assert a != q && old(F)[a].level > old(F)[q].level;
            assert InsertSafe(pages1, F1, lim, k, a);
          }
        }
      }
    }

    /** The leaf is full: it takes the new pair, is cut in two and both halves are chained. */
    method SplitLeafPage(leaf: int, key: int, value: int) returns (k: int, right: int)
      requires Valid() && root != INVALID_PAGE_ID && leaf in F && Within(F[leaf], key) && key !in M
      requires pages[leaf].LeafNode? && |pages[leaf].items| == lim.leafMax
      modifies this
      ensures Splitting(leaf, k, right) && root == old(root) && M == old(M)[key := value]
      ensures F == CutFence(old(F), leaf, k, right) && old(F[leaf].level) == 0
      ensures right !in old(F)
      ensures forall q :: q in old(F) && q != leaf ==> pages[q] == old(pages[q])
    {
      assert PageOk(pages, root, F, Linked, leaf) && LeafHolds(pages, F, M, leaf);
      InsertHolds(pages[leaf].items, F[leaf], M, key, value);
      var kept, moved := SplitItems(pages[leaf].items, key, value);
      right := nextPageId;
      nextPageId := nextPageId + 1;
      k := moved[0].key;
      SplitLeafStep(pages, root, F, M, lim, leaf, key, value, kept, moved, right);
      pages := SplitLeafInto(pages, leaf, kept, moved, right);
      M := M[key := value];
      F := CutFence(F, leaf, k, right);
    }

    method InsertIntoLeaf(key: int, value: int) returns (ok: bool)
      requires Valid() && root != INVALID_PAGE_ID
      modifies this
      ensures Valid() && root != INVALID_PAGE_ID
      ensures ok <==> key !in old(M)
      ensures M == if ok then old(M)[key := value] else old(M)
      ensures !ok ==> pages == old(pages) && root == old(root)
      ensures forall a :: InsertSafe(old(pages), old(F), lim, key, a) ==>
                root == old(root) && KeptAbove(old(pages), old(F), pages, old(F)[a].level)
    {
      var leaf := FindLeafPage(key, false);
      var found, _ := GetValue(key);
      if found {
        return false;
      }
      ok := true;
      assert PageOk(pages, root, F, Linked, leaf) && PageOk(pages, root, F, Linked, root)
        && LeafHolds(pages, F, M, leaf);
      if |pages[leaf].items| < lim.leafMax {
        PutIntoLeaf(leaf, key, value);
      } else {
        assert SizeOk(pages[leaf], leaf == root, lim);
        SplitAndLink(leaf, key, value);
      }
    }

    /** The leaf has room. */
    method PutIntoLeaf(leaf: int, key: int, value: int)
      requires Valid() && root != INVALID_PAGE_ID && leaf in F && Within(F[leaf], key) && key !in M
      requires pages[leaf].LeafNode? && |pages[leaf].items| < lim.leafMax
      modifies this
      ensures Valid() && root == old(root) && F == old(F) && M == old(M)[key := value]
      ensures forall a :: a in F ==> KeptAbove(old(pages), F, pages, F[a].level)
    {
      assert PageOk(pages, root, F, Linked, leaf) && PageOk(pages, root, F, Linked, root)
        && LeafHolds(pages, F, M, leaf);
      InsertHolds(pages[leaf].items, F[leaf], M, key, value);
      InsertItemSorted(pages[leaf].items, key, value);
      InsertItemOk(pages, root, F, M, leaf, key, value);
      assert SizeOk(pages[leaf], leaf == root, lim);
      pages := PutItems(pages, leaf, InsertItem(pages[leaf].items, key, value));
      M := M[key := value];
    }

    /** The leaf is full: it is split and the new leaf handed up. */
    method SplitAndLink(leaf: int, key: int, value: int)
      requires Valid() && root != INVALID_PAGE_ID && leaf in F && Within(F[leaf], key) && key !in M
      requires pages[leaf].LeafNode? && |pages[leaf].items| == lim.leafMax
      modifies this
      ensures Valid() && root != INVALID_PAGE_ID && M == old(M)[key := value]
      ensures forall a :: InsertSafe(old(pages), old(F), lim, key, a) ==>
                root == old(root) && KeptAbove(old(pages), old(F), pages, old(F)[a].level)
    {
      ghost var pages0, F0 := pages, F;
      OneLeafFor(pages, root, F, leaf, key);
      var k, right := SplitLeafPage(leaf, key, value);
      ghost var pages1, F1 := pages, F;
      InsertIntoParent(leaf, k, right, key);
      forall a | InsertSafe(pages0, F0, lim, key, a)
        ensures root == old(root) && KeptAbove(pages0, F0, pages, F0[a].level)
      {
        SafeAfterLeafSplit(pages0, F0, pages1, F1, lim, leaf, k, right, key, a);
        KeptThrough(pages0, F0, pages1, F1, pages, leaf, F0[a].level);
      }
    }

    /** Inserting a pair is inserting it into the map; a key already present is refused. */
    method Insert(key: int, value: int) returns (ok: bool)
      requires Valid()
      modifies this
      ensures Valid()
      ensures ok <==> key !in old(M)
      ensures M == if ok then old(M)[key := value] else old(M)
      ensures !ok ==> pages == old(pages) && root == old(root)
      ensures forall a :: InsertSafe(old(pages), old(F), lim, key, a) ==>
                root == old(root) && KeptAbove(old(pages), old(F), pages, old(F)[a].level)
    {
      if root == INVALID_PAGE_ID {
        StartNewTree(key, value);
        return true;
      }
      ok := InsertIntoLeaf(key, value);
    }

    // ----- removal -----------------------------------------------------------------------

    /** As Valid, but page `node` may have dropped below its lower limit by one. */
    ghost predicate Underfull(node: int)
      reads this
    {
      && Allocated() && Shape(pages, root, F, Linked) && Chained(pages, F) && Agrees(pages, F, M)
      && SizesExcept(pages, root, F, lim, node) && node in F
      && match pages[node]
         case LeafNode(_, _, items) => (if node == root then 0 else lim.leafMax / 2 - 1) <= |items| <= lim.leafMax
         case InternalNode(_, es) => (if node == root then 1 else lim.internalMax / 2 - 1) <= |es| <= lim.internalMax
    }

    /** A root leaf without pairs empties the tree; a root with one child hands over to it. */
    method AdjustRoot(node: int) returns (deleted: bool)
      requires Underfull(node) && node == root
        && ((forall k :: k !in M) || pages[node].InternalNode? || |pages[node].items| > 0)
      modifies this
      ensures Valid() && M == old(M)
      ensures deleted <==> node !in F
      ensures deleted <==>
        match old(pages)[node] case LeafNode(_, _, items) => |items| == 0 case InternalNode(_, es) => |es| == 1
      ensures !deleted ==> pages == old(pages) && root == old(root) && F == old(F)
      ensures F.Keys <= old(F).Keys
      ensures old(pages)[node].InternalNode? ==> root != INVALID_PAGE_ID
      ensures old(pages)[node].InternalNode? ==> forall q :: q in old(F) && q != node ==> q in F
    {
      assert PageOk(pages, root, F, Linked, root);
      deleted := false;
      match pages[node]
      case LeafNode(_, _, items) =>
        if |items| == 0 {
          forall q | q in F ensures q == root {
            assert PageOk(pages, root, F, Linked, q);
            if q != root { var x, y := ParentOf(pages, root, F, Linked, q); }
          }
          root := INVALID_PAGE_ID;
          pages, F := pages - {node}, F - {node};
          deleted := true;
        }
      case InternalNode(_, es) =>
        if |es| == 1 {
          ghost var pages0, F0 := pages, F;
          DropRootShape(pages, root, F, es[0].child);
          root := es[0].child;
          pages, F := DropRoot(pages, node, root), F - {node};
          SameLeavesKeep(pages0, F0, pages, F, M);
          assert PageOk(pages, root, F, Linked, root);
          assert SizeOk(pages0[root], false, lim);
          deleted := true;
        }
    }

    /** Appends page r to its left neighbour l and drops r from the parent. */
    method CoalesceInternal(p: int, i: nat, l: int, r: int)
      requires Allocated() && InternalSiblings(pages, root, F, p, i, l, r) && Chained(pages, F) && Agrees(pages, F, M)
      modifies this`pages, this`F
      ensures Allocated() && StepBelow(old(pages), root, old(F), pages, F, p, {l, p}) && Agrees(pages, F, M)
      ensures F.Keys == old(F).Keys - {r} && l in F && l != r && l != p && r != p && F[l].level == old(F[l].level)
      ensures pages[l].InternalNode? && |pages[l].entries| == |old(pages)[l].entries| + |old(pages)[r].entries|
      ensures pages[p].InternalNode? && |pages[p].entries| == |old(pages)[p].entries| - 1
    {
      MergeInternalStep(pages, root, F, M, p, i, l, r);
      SiblingFacts(pages, root, F, p, i, l, r);
      pages, F := MergeInternal(pages, p, i, l, r), MergeFence(F, l, r);
    }

    /** Moves one child between internal neighbours l and r, through their parent p. */
    method RedistributeInternal(p: int, i: nat, l: int, r: int, fromLeft: bool)
      requires Allocated() && InternalSiblings(pages, root, F, p, i, l, r) && Chained(pages, F) && Agrees(pages, F, M)
      requires |pages[if fromLeft then l else r].entries| > 1 && |pages[l].entries| > 0
      modifies this`pages, this`F
      ensures Allocated() && StepBelow(old(pages), root, old(F), pages, F, p, {l, r, p}) && Agrees(pages, F, M)
      ensures F.Keys == old(F).Keys
      ensures pages[l].InternalNode? && |pages[l].entries| == |old(pages)[l].entries| + if fromLeft then -1 else 1
      ensures pages[r].InternalNode? && |pages[r].entries| == |old(pages)[r].entries| + if fromLeft then 1 else -1
      ensures pages[p].InternalNode? && |pages[p].entries| == |old(pages)[p].entries|
    {
      if fromLeft {
        GiveLastChild(p, i, l, r);
      } else {
        GiveFirstChild(p, i, l, r);
      }
    }

    method GiveLastChild(p: int, i: nat, l: int, r: int)
      requires Allocated() && InternalSiblings(pages, root, F, p, i, l, r) && Chained(pages, F) && Agrees(pages, F, M)
      requires |pages[l].entries| > 1
      modifies this`pages, this`F
      ensures Allocated() && StepBelow(old(pages), root, old(F), pages, F, p, {l, r, p}) && Agrees(pages, F, M)
        && F.Keys == old(F).Keys
      ensures pages[l].InternalNode? && |pages[l].entries| == |old(pages)[l].entries| - 1
      ensures pages[r].InternalNode? && |pages[r].entries| == |old(pages)[r].entries| + 1
      ensures pages[p].InternalNode? && |pages[p].entries| == |old(pages)[p].entries|
    {
      BorrowLastStep(pages, root, F, M, p, i, l, r);
      ghost var k := pages[l].entries[|pages[l].entries| - 1].key;
      pages := BorrowLast(pages, p, i, l, r);
      F := BorrowFence(F, l, r, k);
    }

    method GiveFirstChild(p: int, i: nat, l: int, r: int)
      requires Allocated() && InternalSiblings(pages, root, F, p, i, l, r) && Chained(pages, F) && Agrees(pages, F, M)
      requires |pages[r].entries| > 1 && |pages[l].entries| > 0
      modifies this`pages, this`F
      ensures Allocated() && StepBelow(old(pages), root, old(F), pages, F, p, {l, r, p}) && Agrees(pages, F, M)
        && F.Keys == old(F).Keys
      ensures pages[l].InternalNode? && |pages[l].entries| == |old(pages)[l].entries| + 1
      ensures pages[r].InternalNode? && |pages[r].entries| == |old(pages)[r].entries| - 1
      ensures pages[p].InternalNode? && |pages[p].entries| == |old(pages)[p].entries|
    {
      BorrowFirstStep(pages, root, F, M, p, i, l, r);
      ghost var k := pages[r].entries[1].key;
      pages := BorrowFirst(pages, p, i, l, r);
      F := BorrowFence(F, l, r, k);
    }

    /** The neighbour to merge with or borrow from: the previous child of the parent if there is one. */
    method SiblingOf(node: int) returns (p: int, i: nat, l: int, r: int)
      requires Underfull(node) && pages[node].parent != INVALID_PAGE_ID
      ensures Siblings(pages, F, p, i, l, r) && p == pages[node].parent && node != root
      ensures l != r && l != p && r != p && F[l].level == F[r].level && F[l].level + 1 == F[p].level <= F[root].level
      ensures (pages[l].LeafNode? <==> pages[r].LeafNode?) && l != root && r != root
      ensures if pages[p].entries[0].child == node then i == 1 && l == node else r == node
      ensures SizeOk(pages[p], p == root, lim) && SizeOk(pages[if l == node then r else l], false, lim)
    {
      assert PageOk(pages, root, F, Linked, node);
      assert node != root;
      ghost var q, j := ParentOf(pages, root, F, Linked, node);
      p := pages[node].parent;
      var es := pages[p].entries;
      i := ValueIndex(es, node);
      DistinctChildren(pages, root, F, Linked, p);
      assert SizeOk(pages[p], p == root, lim) && i == j;
      assert PageOk(pages, root, F, Linked, p);
      if i == 0 {
        i, l, r := 1, node, es[1].child;
      } else {
        l, r := es[i - 1].child, node;
      }
      assert EdgeOk(pages, F, Linked, p, i - 1) && EdgeOk(pages, F, Linked, p, i);
      SiblingFacts(pages, root, F, p, i, l, r);
    }

    method CoalesceOrRedistributeInternal(node: int, ghost key: int) returns (deleted: bool)
      requires Underfull(node) && pages[node].InternalNode? && Within(F[node], key)
      modifies this
      ensures Valid() && root != INVALID_PAGE_ID && M == old(M)
      ensures deleted <==> node !in F
      ensures F.Keys <= old(F).Keys && forall q :: q in old(F) && old(F)[q].level < old(F[node].level) ==> q in F
      ensures |old(pages)[node].entries| > lim.internalMax / 2 ==> pages == old(pages) && root == old(root)
      ensures forall a :: RemoveSafe(old(pages), old(F), lim, key, a) && old(F)[a].level > old(F[node].level) ==>
                root == old(root) && KeptAbove(old(pages), old(F), pages, old(F)[a].level)
      decreases F[root].level - F[node].level
    {
      assert PageOk(pages, root, F, Linked, node) && PageOk(pages, root, F, Linked, root);
      deleted := false;
      if pages[node].parent == INVALID_PAGE_ID {
        RootByParent(pages, root, F, node);
        forall a | a in F ensures F[a].level <= F[root].level { assert PageOk(pages, root, F, Linked, a); }
        deleted := AdjustRoot(node);
      } else if |pages[node].entries| <= lim.internalMax / 2 {
        var p, i, l, r := SiblingOf(node);
        assert PageOk(pages, root, F, Linked, r);
        OnlyParentOnPath(pages, root, F, p, if l == node then i - 1 else i, key);
        if |pages[l].entries| + |pages[r].entries| > lim.internalMax {
          RefillInternal(node, p, i, l, r);
        } else {
          deleted := l != node;
          MergeUp(node, key, p, i, l, r);
        }
      }
    }

    /** Redistribute: the fuller neighbour gives one child. */
    method RefillInternal(node: int, p: int, i: nat, l: int, r: int)
      requires Underfull(node) && InternalSiblings(pages, root, F, p, i, l, r) && (l == node || r == node)
        && node != root
      requires l != root && r != root && l != r && l != p && r != p
      requires |pages[node].entries| <= lim.internalMax / 2 && |pages[l].entries| + |pages[r].entries| > lim.internalMax
      requires SizeOk(pages[p], p == root, lim) && SizeOk(pages[if l == node then r else l], false, lim)
      modifies this
      ensures Valid() && root == old(root) && root != INVALID_PAGE_ID && M == old(M) && F.Keys == old(F).Keys
      ensures KeptAbove(old(pages), old(F), pages, old(F[p].level))
    {
      ghost var pages0, F0 := pages, F;
      assert PageOk(pages, root, F, Linked, root);
      RedistributeInternal(p, i, l, r, l != node);
      SizesCarry(pages0, root, F0, pages, F, {l, r, p}, lim, node, INVALID_PAGE_ID);
    }

    /** Coalesce: merge r into l and go on with the parent, which has one child less. */
    method MergeUp(node: int, ghost key: int, p: int, i: nat, l: int, r: int)
      requires Underfull(node) && InternalSiblings(pages, root, F, p, i, l, r) && (l == node || r == node)
        && node != root
      requires l != r && l != p && r != p && F[l].level == F[r].level == F[node].level
        && F[l].level + 1 == F[p].level <= F[root].level
      requires |pages[l].entries| + |pages[r].entries| <= lim.internalMax
      requires SizeOk(pages[p], p == root, lim) && SizeOk(pages[if l == node then r else l], false, lim)
      requires Within(F[p], key) && (forall a :: a in F && F[a].level == F[p].level && Within(F[a], key) ==> a == p)
      modifies this
      ensures Valid() && root != INVALID_PAGE_ID && M == old(M)
      ensures l in F && r !in F
      ensures F.Keys <= old(F).Keys && forall q :: q in old(F) && old(F)[q].level < old(F[node].level) ==> q in F
      ensures forall a :: RemoveSafe(old(pages), old(F), lim, key, a) && old(F)[a].level > old(F[node].level) ==>
                root == old(root) && KeptAbove(old(pages), old(F), pages, old(F)[a].level)
      decreases F[root].level - F[node].level, 0
    {
      ghost var pages0, F0 := pages, F;
      CoalesceInternal(p, i, l, r);
      SizesCarry(pages0, root, F0, pages, F, {l, p}, lim, node, p);
      ghost var pages1, F1 := pages, F;
      var _ := CoalesceOrRedistributeInternal(p, key);
      forall a | RemoveSafe(pages0, F0, lim, key, a) && F0[a].level > F0[node].level
        ensures root == old(root) && KeptAbove(pages0, F0, pages, F0[a].level)
      {
        if a != p { assert RemoveSafe(pages1, F1, lim, key, a); }
      }
    }

    /** Borrowing a pair from the right leaf has made x its own separator: nothing is gone from the
        leaves, but a search no longer finds x. */
    ghost predicate Misfiled(x: int)
      reads this
    {
      && Allocated() && Shape(pages, root, F, Linked) && Chained(pages, F)
      && SizesExcept(pages, root, F, lim, INVALID_PAGE_ID)
      && SearchLoses(pages, F, M, x) && !SearchAgrees(pages, F, M) && ListsAll(pages, M)
    }

    method CoalesceLeaf(p: int, i: nat, l: int, r: int)
      requires Allocated() && Shape(pages, root, F, Linked) && Chained(pages, F) && Agrees(pages, F, M)
      requires Siblings(pages, F, p, i, l, r) && pages[l].LeafNode? && pages[r].LeafNode?
      modifies this`pages, this`F
      ensures Allocated() && StepBelow(old(pages), root, old(F), pages, F, p, {l, p}) && Agrees(pages, F, M)
      ensures F.Keys == old(F).Keys - {r} && l in F && l != r && l != p && r != p && F[l].level == old(F[l].level)
      ensures pages[l].LeafNode? && |pages[l].items| == |old(pages)[l].items| + |old(pages)[r].items|
      ensures pages[p].InternalNode? && |pages[p].entries| == |old(pages)[p].entries| - 1
    {
      MergeLeafStep(pages, root, F, M, p, i, l, r);
      SiblingFacts(pages, root, F, p, i, l, r);
      pages, F := MergeLeaf(pages, p, i, l, r), MergeFence(F, l, r);
    }

    /** The last pair of l becomes the first of r, and its key the separator. */
    method BorrowLeafFromLeft(p: int, i: nat, l: int, r: int)
      requires Allocated() && Shape(pages, root, F, Linked) && Chained(pages, F) && Agrees(pages, F, M)
      requires Siblings(pages, F, p, i, l, r) && pages[l].LeafNode? && pages[r].LeafNode? && |pages[l].items| > 1
      modifies this`pages, this`F
      ensures Allocated() && StepBelow(old(pages), root, old(F), pages, F, p, {l, r, p}) && Agrees(pages, F, M)
      ensures F.Keys == old(F).Keys
      ensures pages[l].LeafNode? && |pages[l].items| == |old(pages)[l].items| - 1
      ensures pages[r].LeafNode? && |pages[r].items| == |old(pages)[r].items| + 1
      ensures pages[p].InternalNode? && |pages[p].entries| == |old(pages)[p].entries|
    {
      BorrowLeftStep(pages, root, F, M, p, i, l, r);
      ghost var k := pages[l].items[|pages[l].items| - 1].key;
      pages := BorrowLastPair(pages, p, i, l, r);
      F := BorrowFence(F, l, r, k);
    }

    /** The first pair of r becomes the last of l; the code makes the moved key the separator. */
    method BorrowLeafFromRight(p: int, i: nat, l: int, r: int) returns (x: int)
      requires Allocated() && Shape(pages, root, F, Linked) && Chained(pages, F) && Agrees(pages, F, M)
      requires Siblings(pages, F, p, i, l, r) && pages[l].LeafNode? && pages[r].LeafNode? && |pages[r].items| > 1
      modifies this`pages, this`F
      ensures Allocated() && StepBelow(old(pages), root, old(F), pages, F, p, {l, r, p})
      ensures F.Keys == old(F).Keys
      ensures SearchLoses(pages, F, M, x) && !SearchAgrees(pages, F, M) && ListsAll(pages, M)
      ensures x == old(pages)[r].items[0].key
      ensures pages[l].LeafNode? && |pages[l].items| == |old(pages)[l].items| + 1
      ensures pages[r].LeafNode? && |pages[r].items| == |old(pages)[r].items| - 1
      ensures pages[p].InternalNode? && |pages[p].entries| == |old(pages)[p].entries|
    {
      BorrowRightStep(pages, root, F, M, p, i, l, r);
      x := pages[r].items[0].key;
      pages := BorrowFirstPair(pages, p, i, l, r);
      F := BorrowFence(F, l, r, x);
    }

    /** One pair moves over from the fuller leaf. */
    method RedistributeLeaf(node: int, p: int, i: nat, l: int, r: int)
      requires Underfull(node) && Siblings(pages, F, p, i, l, r) && pages[l].LeafNode? && pages[r].LeafNode?
      requires (l == node || r == node) && node != root && l != root && r != root && l != r && l != p && r != p
      requires |pages[node].items| < lim.leafMax / 2 && |pages[l].items| + |pages[r].items| > lim.leafMax
      requires SizeOk(pages[p], p == root, lim) && SizeOk(pages[if l == node then r else l], false, lim)
      modifies this
      ensures M == old(M) && root == old(root) && F.Keys == old(F).Keys
        && KeptAbove(old(pages), old(F), pages, old(F[p].level))
      ensures if l == node then exists x :: Misfiled(x) else Valid()
    {
      if l == node {
        RedistributeFromRight(p, i, l, r);
      } else {
        RedistributeFromLeft(p, i, l, r);
      }
    }

    method RedistributeFromRight(p: int, i: nat, l: int, r: int)
      requires Underfull(l) && Siblings(pages, F, p, i, l, r) && pages[l].LeafNode? && pages[r].LeafNode?
      requires l != root && r != root && l != r && l != p && r != p
      requires |pages[l].items| < lim.leafMax / 2 && |pages[l].items| + |pages[r].items| > lim.leafMax
      requires SizeOk(pages[p], p == root, lim) && SizeOk(pages[r], false, lim)
      modifies this
      ensures M == old(M) && root == old(root) && F.Keys == old(F).Keys
        && KeptAbove(old(pages), old(F), pages, old(F[p].level))
      ensures exists x :: Misfiled(x)
    {
      ghost var pages0, F0 := pages, F;
      var x := BorrowLeafFromRight(p, i, l, r);
      SizesCarry(pages0, root, F0, pages, F, {l, r, p}, lim, l, INVALID_PAGE_ID);
      assert Misfiled(x);
    }

    method RedistributeFromLeft(p: int, i: nat, l: int, r: int)
      requires Underfull(r) && Siblings(pages, F, p, i, l, r) && pages[l].LeafNode? && pages[r].LeafNode?
      requires l != root && r != root && l != r && l != p && r != p
      requires |pages[r].items| < lim.leafMax / 2 && |pages[l].items| + |pages[r].items| > lim.leafMax
      requires SizeOk(pages[p], p == root, lim) && SizeOk(pages[l], false, lim)
      modifies this
      ensures M == old(M) && root == old(root) && F.Keys == old(F).Keys
        && KeptAbove(old(pages), old(F), pages, old(F[p].level))
      ensures Valid()
    {
      ghost var pages0, F0 := pages, F;
      assert PageOk(pages, root, F, Linked, root);
      BorrowLeafFromLeft(p, i, l, r);
      SizesCarry(pages0, root, F0, pages, F, {l, r, p}, lim, r, INVALID_PAGE_ID);
    }

    method CoalesceOrRedistributeLeaf(node: int, ghost key: int) returns (deleted: bool)
      requires Underfull(node) && pages[node].LeafNode? && Within(F[node], key)
      modifies this
      ensures M == old(M) && (deleted <==> node !in F)
      ensures if BorrowsRight(old(pages), lim, node) then exists x :: Misfiled(x) else Valid()
      ensures |old(pages)[node].items| >= lim.leafMax / 2 && |old(pages)[node].items| > 0 ==>
        pages == old(pages) && root == old(root)
      ensures forall a :: RemoveSafe(old(pages), old(F), lim, key, a) && old(F)[a].level > 0 ==>
                root == old(root) && KeptAbove(old(pages), old(F), pages, old(F)[a].level)
    {
      assert PageOk(pages, root, F, Linked, node) && PageOk(pages, root, F, Linked, root);
      deleted := false;
      if pages[node].parent == INVALID_PAGE_ID {
        RootByParent(pages, root, F, node);
        forall a | a in F ensures F[a].level <= F[root].level { assert PageOk(pages, root, F, Linked, a); }
        assert LeafHolds(pages, F, M, node);
        assert forall k :: k in M ==> HasKey(pages[node].items, k);
        deleted := AdjustRoot(node);
      } else if |pages[node].items| < lim.leafMax / 2 {
        var p, i, l, r := SiblingOf(node);
        OnlyParentOnPath(pages, root, F, p, if l == node then i - 1 else i, key);
        assert BorrowsRight(pages, lim, node) <==> l == node && |pages[l].items| + |pages[r].items| > lim.leafMax;
        if |pages[l].items| + |pages[r].items| > lim.leafMax {
          RedistributeLeaf(node, p, i, l, r);
        } else {
          deleted := l != node;
          MergeLeafUp(node, key, p, i, l, r);
        }
      }
    }

    method MergeLeafUp(node: int, ghost key: int, p: int, i: nat, l: int, r: int)
      requires Underfull(node) && Siblings(pages, F, p, i, l, r) && pages[l].LeafNode? && pages[r].LeafNode?
      requires (l == node || r == node) && node != root
      requires l != r && l != p && r != p && F[l].level == F[r].level == F[node].level == 0 && F[p].level == 1
      requires |pages[l].items| + |pages[r].items| <= lim.leafMax
      requires SizeOk(pages[p], p == root, lim) && SizeOk(pages[if l == node then r else l], false, lim)
      requires Within(F[p], key) && (forall a :: a in F && F[a].level == F[p].level && Within(F[a], key) ==> a == p)
      modifies this
      ensures Valid() && root != INVALID_PAGE_ID && M == old(M)
      ensures l in F && r !in F
      ensures forall a :: RemoveSafe(old(pages), old(F), lim, key, a) && old(F)[a].level > 0 ==>
                root == old(root) && KeptAbove(old(pages), old(F), pages, old(F)[a].level)
    {
      ghost var pages0, F0 := pages, F;
      CoalesceLeaf(p, i, l, r);
      SizesCarry(pages0, root, F0, pages, F, {l, p}, lim, node, p);
      ghost var pages1, F1 := pages, F;
      var _ := CoalesceOrRedistributeInternal(p, key);
      forall a | RemoveSafe(pages0, F0, lim, key, a) && F0[a].level > 0
        ensures root == old(root) && KeptAbove(pages0, F0, pages, F0[a].level)
      {
        if a != p { assert RemoveSafe(pages1, F1, lim, key, a); }
      }
    }

    /** The removal of key will end in a borrow from the right leaf. */
    ghost predicate WillBorrowRight(key: int)
      reads this
    {
      exists leaf :: leaf in F && leaf in pages && pages[leaf].LeafNode? && Within(F[leaf], key)
        && HasKey(pages[leaf].items, key)
                     && BorrowsRight(PutItems(pages, leaf, RemoveItem(pages[leaf].items, key)), lim, leaf)
    }

    lemma ValidAgrees()
      requires Valid()
      ensures SearchAgrees(pages, F, M)
    {
      if root != INVALID_PAGE_ID { SearchIsMap(pages, root, F, M); }
    }

    /** In a valid tree the chain, walked from its leftmost leaf, lists exactly the map in ascending order. */
    lemma ChainIsMap(p: int)
      requires Valid() && p in F && p in pages && pages[p].LeafNode? && F[p].lo == MinusInf
      ensures Listing(pages, F, M)
      ensures var s := ChainItems(pages, F, M, p);
        && SortedItems(s) && (forall i :: 0 <= i < |s| ==> s[i].key in M && M[s[i].key] == s[i].val)
        && (forall k :: k in M ==> HasKey(s, k))
    {
      forall q | q in F && q in pages && pages[q].LeafNode?
        ensures q >= 0 && Less(F[q].lo, F[q].hi) && SortedItems(pages[q].items) {
        assert PageOk(pages, root, F, Linked, q);
      }
      ChainLists(pages, F, M, p);
    }

    /** Removing a key removes it from the map and from the leaf chain. Search agrees with the
        smaller map again, except exactly when the removal borrows from the right leaf. */
    method Remove(key: int)
      requires Valid()
      modifies this
      ensures M == old(M) - {key}
      ensures if old(WillBorrowRight(key)) then exists x :: Misfiled(x) else Valid()
      ensures SearchAgrees(pages, F, M) <==> !old(WillBorrowRight(key))
      ensures key !in old(M) ==> pages == old(pages) && root == old(root)
      ensures forall a :: RemoveSafe(old(pages), old(F), lim, key, a) ==>
                root == old(root) && KeptAbove(old(pages), old(F), pages, old(F)[a].level)
    {
      ghost var borrows := WillBorrowRight(key);
      RemoveFromTree(key);
      if !borrows { ValidAgrees(); }
    }

    method RemoveFromTree(key: int)
      requires Valid()
      modifies this
      ensures M == old(M) - {key}
      ensures if old(WillBorrowRight(key)) then exists x :: Misfiled(x) else Valid()
      ensures key !in old(M) ==> pages == old(pages) && root == old(root)
      ensures forall a :: RemoveSafe(old(pages), old(F), lim, key, a) ==>
                root == old(root) && KeptAbove(old(pages), old(F), pages, old(F)[a].level)
    {
      if root == INVALID_PAGE_ID { return; }
      var leaf := FindLeafPage(key, false);
      assert PageOk(pages, root, F, Linked, leaf) && PageOk(pages, root, F, Linked, root)
        && LeafHolds(pages, F, M, leaf);
      OnlyLeaf(pages, root, F, leaf, key);
      forall a | a in F && F[a].level == 0 && Within(F[a], key) ensures a == leaf {
        UniqueAtLevel(pages, root, F, a, leaf, key);
      }
      var size := |pages[leaf].items|;
      RemoveItemSorted(pages[leaf].items, key);
      if |RemoveItem(pages[leaf].items, key)| != size {
        RemoveFromLeaf(leaf, key);
      } else {
        M := M - {key};
        assert M == old(M);
      }
    }

    /** The leaf has the key: drop the pair, then restore the size limits. */
    method RemoveFromLeaf(leaf: int, key: int)
      requires Valid() && root != INVALID_PAGE_ID && leaf in F && pages[leaf].LeafNode? && Within(F[leaf], key)
      requires HasKey(pages[leaf].items, key) && F[leaf].level == 0
      requires forall a :: a in F && F[a].level == 0 && Within(F[a], key) ==> a == leaf
      modifies this
      ensures M == old(M) - {key}
      ensures if BorrowsRight(PutItems(old(pages), leaf, RemoveItem(old(pages)[leaf].items, key)), lim, leaf)
              then exists x :: Misfiled(x) else Valid()
      ensures forall a :: RemoveSafe(old(pages), old(F), lim, key, a) ==>
                root == old(root) && KeptAbove(old(pages), old(F), pages, old(F)[a].level)
    {
      ghost var pages0, F0 := pages, F;
      assert PageOk(pages, root, F, Linked, leaf);
      RemoveItemSorted(pages[leaf].items, key);
      RemoveItemOk(pages, root, F, M, leaf, key);
      assert SizeOk(pages[leaf], leaf == root, lim);
      M := M - {key};
      pages := PutItems(pages, leaf, RemoveItem(pages[leaf].items, key));
      ghost var pages1 := pages;
      assert Underfull(leaf);
      var _ := CoalesceOrRedistributeLeaf(leaf, key);
      forall a | RemoveSafe(pages0, F0, lim, key, a)
        ensures root == old(root) && KeptAbove(pages0, F0, pages, F0[a].level)
      {
        if a != leaf { assert RemoveSafe(pages1, F0, lim, key, a); }
      }
    }

    /** InsertFromFile: keys one after another, each with itself as value; later duplicates change nothing. */
    method InsertFromFile(keys: seq<int>)
      requires Valid()
      modifies this
      ensures Valid() && M == AddAll(old(M), keys)
    {
      var i := 0;
      while i < |keys|
        invariant i <= |keys| && Valid() && AddAll(M, keys[i..]) == AddAll(old(M), keys)
      {
        var _ := Insert(keys[i], keys[i]);
        i := i + 1;
      }
    }
  }

  function AddAll(M: map<int, int>, keys: seq<int>): map<int, int>
    decreases |keys|
  {
    if keys == [] then M else AddAll(if keys[0] in M then M else M[keys[0] := keys[0]], keys[1..])
  }
}
