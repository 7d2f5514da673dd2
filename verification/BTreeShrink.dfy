/** What merging neighbours, borrowing between them and dropping the root do to the tree. */
module BTreeShrink {
  import opened Config
  import opened BTreeNodes
  import opened BTreeShape
  import opened BTreeGrow

  /** Pages l and r are neighbouring children of p, at positions i - 1 and i. */
  ghost predicate Siblings(pages: Pages, F: Fences, p: int, i: nat, l: int, r: int) {
    && p in F && p in pages && pages[p].InternalNode? && 1 <= i < |pages[p].entries|
    && pages[p].entries[i - 1].child == l && pages[p].entries[i].child == r
    && l in pages && r in pages && l in F && r in F
  }

  function MergeFence(F: Fences, l: int, r: int): Fences
    requires l in F && r in F
  {
    (F - {r})[l := F[l].(hi := F[r].hi)]
  }

  /** The entries of two neighbours in order, the separator from the parent between them. */
  function JoinEntries(ls: seq<Entry>, k: int, rs: seq<Entry>): seq<Entry>
    requires |rs| > 0
  {
    ls + SetKey(rs, 0, k)
  }

  function MergeInternal(pages: Pages, p: int, i: nat, l: int, r: int): Pages
    requires p in pages && pages[p].InternalNode? && i < |pages[p].entries|
    requires l in pages && pages[l].InternalNode? && r in pages && pages[r].InternalNode? && |pages[r].entries| > 0
  {
    var es := pages[p].entries;
    Reparent(pages, Children(pages[r].entries), l)
            [l := pages[l].(entries := JoinEntries(pages[l].entries, es[i].key, pages[r].entries))]
            [p := pages[p].(entries := RemoveEntry(es, i))]
    - {r}
  }

  function MergeLeaf(pages: Pages, p: int, i: nat, l: int, r: int): Pages
    requires p in pages && pages[p].InternalNode? && i < |pages[p].entries|
    requires l in pages && pages[l].LeafNode? && r in pages && pages[r].LeafNode?
  {
    pages[l := LeafNode(pages[l].parent, pages[r].next, pages[l].items + pages[r].items)]
         [p := pages[p].(entries := RemoveEntry(pages[p].entries, i))]
    - {r}
  }

  lemma SiblingFacts(pages: Pages, root: int, F: Fences, p: int, i: nat, l: int, r: int)
    requires Shape(pages, root, F, Linked) && Siblings(pages, F, p, i, l, r)
    ensures l != r && l != p && r != p && r != root && l != root
    ensures F[l].level == F[r].level && F[l].level + 1 == F[p].level
    ensures F[l].hi == F[r].lo == At(pages[p].entries[i].key)
    ensures pages[l].LeafNode? <==> pages[r].LeafNode?
    ensures Less(F[l].lo, F[r].hi)
    ensures pages[l].parent == p && pages[r].parent == p
  {
    assert PageOk(pages, root, F, Linked, p) && PageOk(pages, root, F, Linked, l) && PageOk(pages, root, F, Linked, r);
    assert EdgeOk(pages, F, Linked, p, i - 1) && EdgeOk(pages, F, Linked, p, i);
    DistinctChildren(pages, root, F, Linked, p);
    assert PageOk(pages, root, F, Linked, root);
  }

  /** Parent p after its entry i, the page r, is gone and l spans both fences. */
  lemma MergeParentEdge(pages: Pages, root: int, F: Fences, p: int, i: nat, l: int, r: int, pages': Pages, j: nat)
    requires Shape(pages, root, F, Linked) && Siblings(pages, F, p, i, l, r)
    requires p in pages' && pages'[p].InternalNode? && pages'[p].entries == RemoveEntry(pages[p].entries, i)
    requires j < |pages[p].entries| - 1
    requires forall q :: q in F && q in pages && q != r && pages[q].parent == p ==> q in pages' && pages'[q].parent == p
    requires p != l && p != r
    ensures EdgeOk(pages', MergeFence(F, l, r), Linked, p, j)
  {
    assert PageOk(pages, root, F, Linked, p);
    SiblingFacts(pages, root, F, p, i, l, r);
    DistinctChildren(pages, root, F, Linked, p);
    if j < i {
      assert EdgeOk(pages, F, Linked, p, j) && EdgeOk(pages, F, Linked, p, i);
    } else {
      assert EdgeOk(pages, F, Linked, p, j + 1);
    }
  }

  lemma RemoveEntryInside(es: seq<Entry>, f: Fence, i: nat)
    requires KeysInside(es, f) && 1 <= i < |es|
    ensures KeysInside(RemoveEntry(es, i), f)
  {
  }

  lemma JoinEntriesInside(ls: seq<Entry>, lf: Fence, k: int, rs: seq<Entry>, rf: Fence)
    requires KeysInside(ls, lf) && KeysInside(rs, rf) && |ls| > 0 && |rs| > 0
    requires lf.hi == rf.lo == At(k) && Less(lf.lo, lf.hi) && Less(rf.lo, rf.hi)
    ensures KeysInside(JoinEntries(ls, k, rs), Fence(lf.lo, rf.hi, lf.level))
  {
    var es := JoinEntries(ls, k, rs);
    forall a | 1 <= a < |es| ensures Less(lf.lo, At(es[a].key)) && Less(At(es[a].key), rf.hi) {
      if a > |ls| { assert es[a] == rs[a - |ls|]; }
    }
    forall a, b | 1 <= a < b < |es| ensures es[a].key < es[b].key {
      if b > |ls| { assert es[b] == rs[b - |ls|]; }
      if a > |ls| { assert es[a] == rs[a - |ls|]; }
    }
  }

  // ----- merging leaves ---------------------------------------------------------------

  lemma MergeLeafParent(pages: Pages, root: int, F: Fences, p: int, i: nat, l: int, r: int, q: int)
    requires Shape(pages, root, F, Linked) && Siblings(pages, F, p, i, l, r) && pages[l].LeafNode? && pages[r].LeafNode?
    requires q in F && q != r && q != root && r != root
    ensures q in pages && pages[q].parent in F && pages[q].parent != r
    ensures exists j :: IsChild(MergeLeaf(pages, p, i, l, r), pages[q].parent, j, q)
  {
    var pages' := MergeLeaf(pages, p, i, l, r);
    SiblingFacts(pages, root, F, p, i, l, r);
    var pq, j := ParentOf(pages, root, F, Linked, q);
    DistinctChildren(pages, root, F, Linked, p);
    assert IsChild(pages', pq, if pq == p && j > i then j - 1 else j, q);
  }

  lemma MergeLeafEdges(pages: Pages, root: int, F: Fences, p: int, i: nat, l: int, r: int, q: int, j: nat)
    requires Shape(pages, root, F, Linked) && Siblings(pages, F, p, i, l, r) && pages[l].LeafNode? && pages[r].LeafNode?
      && r != root
    requires q in F && q in pages && q != r && pages[q].InternalNode? && j < |MergeLeaf(pages, p, i, l, r)[q].entries|
    ensures q in MergeFence(F, l, r) && MergeLeaf(pages, p, i, l, r)[q].InternalNode?
    ensures EdgeOk(MergeLeaf(pages, p, i, l, r), MergeFence(F, l, r), Linked, q, j)
  {
    SiblingFacts(pages, root, F, p, i, l, r);
    assert PageOk(pages, root, F, Linked, q);
    if q == p {
      MergeParentEdge(pages, root, F, p, i, l, r, MergeLeaf(pages, p, i, l, r), j);
    } else {
      assert EdgeOk(pages, F, Linked, q, j);
      MergeLeafParent(pages, root, F, p, i, l, r, pages[q].entries[j].child);
    }
  }

  lemma MergeLeafPage(pages: Pages, root: int, F: Fences, p: int, i: nat, l: int, r: int, q: int)
    requires Shape(pages, root, F, Linked) && Siblings(pages, F, p, i, l, r) && pages[l].LeafNode? && pages[r].LeafNode?
    requires SortedItems(pages[l].items + pages[r].items) && q in F && q != r && r != root
    ensures PageOk(MergeLeaf(pages, p, i, l, r), root, MergeFence(F, l, r), Linked, q)
  {
    var pages', F' := MergeLeaf(pages, p, i, l, r), MergeFence(F, l, r);
    SiblingFacts(pages, root, F, p, i, l, r);
    assert PageOk(pages, root, F, Linked, q);
    if q != root { MergeLeafParent(pages, root, F, p, i, l, r, q); }
    if q == p { RemoveEntryInside(pages[p].entries, F[p], i); }
    if pages[q].InternalNode? {
      forall j | 0 <= j < |pages'[q].entries| ensures EdgeOk(pages', F', Linked, q, j) {
        MergeLeafEdges(pages, root, F, p, i, l, r, q, j);
      }
    }
  }

  lemma MergeLeafShape(pages: Pages, root: int, F: Fences, p: int, i: nat, l: int, r: int)
    requires Shape(pages, root, F, Linked) && Siblings(pages, F, p, i, l, r) && pages[l].LeafNode? && pages[r].LeafNode?
    requires SortedItems(pages[l].items + pages[r].items)
    ensures Shape(MergeLeaf(pages, p, i, l, r), root, MergeFence(F, l, r), Linked)
  {
    var pages', F' := MergeLeaf(pages, p, i, l, r), MergeFence(F, l, r);
    SiblingFacts(pages, root, F, p, i, l, r);
    forall q | q in F' ensures PageOk(pages', root, F', Linked, q) {
      MergeLeafPage(pages, root, F, p, i, l, r, q);
    }
  }

  lemma JoinItemsHold(a: seq<Item>, fa: Fence, b: seq<Item>, fb: Fence, M: map<int, int>)
    requires SortedItems(a) && SortedItems(b) && Holds(a, fa, M) && Holds(b, fb, M)
    requires fa.hi == fb.lo && fa.hi.At? && Less(fa.lo, fa.hi) && Less(fb.lo, fb.hi)
    ensures SortedItems(a + b) && Holds(a + b, Fence(fa.lo, fb.hi, fa.level), M)
  {
    forall x | x in M && Within(Fence(fa.lo, fb.hi, fa.level), x) ensures HasKey(a + b, x) {
      if x < fa.hi.key {
        var i :| 0 <= i < |a| && a[i].key == x;
        assert (a + b)[i].key == x;
      } else {
        var i :| 0 <= i < |b| && b[i].key == x;
        assert (a + b)[|a| + i].key == x;
      }
    }
  }

  /** The chain successor of a leaf is its right neighbour. */
  lemma NextIsSibling(pages: Pages, root: int, F: Fences, p: int, i: nat, l: int, r: int)
    requires Shape(pages, root, F, Linked) && Chained(pages, F) && Siblings(pages, F, p, i, l, r)
    requires pages[l].LeafNode? && pages[r].LeafNode?
    ensures pages[l].next == r
  {
    SiblingFacts(pages, root, F, p, i, l, r);
    assert NextOk(pages, F, l);
    var n := pages[l].next;
    assert PageOk(pages, root, F, Linked, n) && PageOk(pages, root, F, Linked, r);
    UniqueAtLevel(pages, root, F, n, r, pages[p].entries[i].key);
  }

  /** Merging two neighbouring leaves keeps the shape, the chain and the pairs. */
  lemma MergeLeafOk(pages: Pages, root: int, F: Fences, M: map<int, int>, p: int, i: nat, l: int, r: int)
    requires Shape(pages, root, F, Linked) && Chained(pages, F) && Agrees(pages, F, M)
    requires Siblings(pages, F, p, i, l, r) && pages[l].LeafNode? && pages[r].LeafNode?
    ensures var pages', F' := MergeLeaf(pages, p, i, l, r), MergeFence(F, l, r);
            Shape(pages', root, F', Linked) && Chained(pages', F') && Agrees(pages', F', M)
    ensures SortedItems(pages[l].items + pages[r].items)
  {
    var pages', F' := MergeLeaf(pages, p, i, l, r), MergeFence(F, l, r);
    SiblingFacts(pages, root, F, p, i, l, r);
    assert PageOk(pages, root, F, Linked, l) && PageOk(pages, root, F, Linked, r);
    assert LeafHolds(pages, F, M, l) && LeafHolds(pages, F, M, r);
    JoinItemsHold(pages[l].items, F[l], pages[r].items, F[r], M);
    MergeLeafShape(pages, root, F, p, i, l, r);
    forall q | q in F' && q in pages' ensures LeafHolds(pages', F', M, q) {
      if q != l { assert LeafHolds(pages, F, M, q); }
    }
    forall q | q in F' && q in pages' && pages'[q].LeafNode? ensures NextOk(pages', F', q) {
      if q == l {
        assert NextOk(pages, F, r);
      } else {
        assert NextOk(pages, F, q);
        if pages[q].next == r {
          assert PageOk(pages, root, F, Linked, q);
          NoOtherNext(pages, root, F, p, i, l, r, q);
        }
      }
    }
  }

  lemma NoOtherNext(pages: Pages, root: int, F: Fences, p: int, i: nat, l: int, r: int, q: int)
    requires Shape(pages, root, F, Linked) && Chained(pages, F) && Siblings(pages, F, p, i, l, r)
    requires pages[l].LeafNode? && pages[r].LeafNode?
    requires q in F && q in pages && pages[q].LeafNode? && pages[q].next == r
    ensures q == l
  {
    SiblingFacts(pages, root, F, p, i, l, r);
    assert NextOk(pages, F, q);
    assert PageOk(pages, root, F, Linked, q) && PageOk(pages, root, F, Linked, l) && PageOk(pages, root, F, Linked, r);
    assert F[q].hi == F[l].hi;
    var k := pages[p].entries[i].key - 1;
    assert Within(F[q], k) && Within(F[l], k);
    UniqueAtLevel(pages, root, F, q, l, k);
  }

  // ----- merging internal pages ---------------------------------------------------------

  ghost predicate InternalSiblings(pages: Pages, root: int, F: Fences, p: int, i: nat, l: int, r: int) {
    && Shape(pages, root, F, Linked) && Siblings(pages, F, p, i, l, r)
    && pages[l].InternalNode? && pages[r].InternalNode? && |pages[r].entries| > 0
  }

  lemma MergeInternalAt(pages: Pages, root: int, F: Fences, p: int, i: nat, l: int, r: int, q: int)
    requires InternalSiblings(pages, root, F, p, i, l, r) && q in F && q != r
    ensures var pages' := MergeInternal(pages, p, i, l, r);
            && q in pages && q in pages'
            && (q == l ==> pages'[q] == pages[l].(entries :=
               JoinEntries(pages[l].entries, pages[p].entries[i].key, pages[r].entries)))
            && (q == p ==> pages'[q] == pages[p].(entries := RemoveEntry(pages[p].entries, i)))
            && (q in Children(pages[r].entries) ==>
               q != l && q != p && pages[q].parent == r && pages'[q] == pages[q].(parent := l))
            && (q !in Children(pages[r].entries) && q != l && q != p ==> pages'[q] == pages[q])
            && (q in Children(pages[r].entries) <==> pages[q].parent == r)
  {
    SiblingFacts(pages, root, F, p, i, l, r);
    assert PageOk(pages, root, F, Linked, q) && PageOk(pages, root, F, Linked, r);
    if q in Children(pages[r].entries) {
      var j :| 0 <= j < |pages[r].entries| && pages[r].entries[j].child == q;
      assert EdgeOk(pages, F, Linked, r, j);
    } else if pages[q].parent == r && q != root {
      var pq, j := ParentOf(pages, root, F, Linked, q);
      assert false;
    }
  }

  lemma MergeInternalUp(pages: Pages, root: int, F: Fences, p: int, i: nat, l: int, r: int, q: int)
    requires InternalSiblings(pages, root, F, p, i, l, r) && q in F && q != r
    ensures q in MergeInternal(pages, p, i, l, r)
    ensures UpOk(MergeInternal(pages, p, i, l, r), root, MergeFence(F, l, r), Linked, q)
  {
    var pages' := MergeInternal(pages, p, i, l, r);
    MergeInternalAt(pages, root, F, p, i, l, r, q);
    SiblingFacts(pages, root, F, p, i, l, r);
    assert PageOk(pages, root, F, Linked, q) && PageOk(pages, root, F, Linked, r);
    if q != root {
      var pq, j := ParentOf(pages, root, F, Linked, q);
      if pq == r {
        MergeInternalAt(pages, root, F, p, i, l, r, l);
        assert IsChild(pages', l, |pages[l].entries| + j, q);
      } else {
        MergeInternalAt(pages, root, F, p, i, l, r, pq);
        DistinctChildren(pages, root, F, Linked, p);
        assert IsChild(pages', pq, if pq == p && j > i then j - 1 else j, q);
      }
    }
  }

  lemma MergeInternalLeft(pages: Pages, root: int, F: Fences, p: int, i: nat, l: int, r: int, j: nat)
    requires InternalSiblings(pages, root, F, p, i, l, r)
    requires l in MergeInternal(pages, p, i, l, r) && MergeInternal(pages, p, i, l, r)[l].InternalNode?
    requires j < |MergeInternal(pages, p, i, l, r)[l].entries|
    ensures EdgeOk(MergeInternal(pages, p, i, l, r), MergeFence(F, l, r), Linked, l, j)
  {
    var pages', F' := MergeInternal(pages, p, i, l, r), MergeFence(F, l, r);
    SiblingFacts(pages, root, F, p, i, l, r);
    MergeInternalAt(pages, root, F, p, i, l, r, l);
    assert PageOk(pages, root, F, Linked, l) && PageOk(pages, root, F, Linked, r);
    var n := |pages[l].entries|;
    var c := pages'[l].entries[j].child;
    if j < n {
      assert EdgeOk(pages, F, Linked, l, j);
    } else {
      assert EdgeOk(pages, F, Linked, r, j - n);
    }
    MergeInternalAt(pages, root, F, p, i, l, r, c);
  }

  lemma MergeInternalPage(pages: Pages, root: int, F: Fences, p: int, i: nat, l: int, r: int, q: int)
    requires InternalSiblings(pages, root, F, p, i, l, r) && q in F && q != r && r != root
    ensures PageOk(MergeInternal(pages, p, i, l, r), root, MergeFence(F, l, r), Linked, q)
  {
    var pages', F' := MergeInternal(pages, p, i, l, r), MergeFence(F, l, r);
    SiblingFacts(pages, root, F, p, i, l, r);
    MergeInternalAt(pages, root, F, p, i, l, r, q);
    MergeInternalUp(pages, root, F, p, i, l, r, q);
    assert PageOk(pages, root, F, Linked, q) && PageOk(pages, root, F, Linked, l) && PageOk(pages, root, F, Linked, r);
    if q == l {
      JoinEntriesInside(pages[l].entries, F[l], pages[p].entries[i].key, pages[r].entries, F[r]);
      forall j | 0 <= j < |pages'[l].entries| ensures EdgeOk(pages', F', Linked, l, j) {
        MergeInternalLeft(pages, root, F, p, i, l, r, j);
      }
    } else if q == p {
      RemoveEntryInside(pages[p].entries, F[p], i);
      forall c | c in F && c in pages && c != r && pages[c].parent == p ensures c in pages' && pages'[c].parent == p {
        MergeInternalAt(pages, root, F, p, i, l, r, c);
      }
      forall j | 0 <= j < |pages'[p].entries| ensures EdgeOk(pages', F', Linked, p, j) {
        MergeParentEdge(pages, root, F, p, i, l, r, pages', j);
      }
    } else if pages[q].InternalNode? {
      forall j | 0 <= j < |pages[q].entries| ensures EdgeOk(pages', F', Linked, q, j) {
        assert EdgeOk(pages, F, Linked, q, j);
        MergeInternalAt(pages, root, F, p, i, l, r, pages[q].entries[j].child);
      }
    }
  }

  lemma MergeInternalShape(pages: Pages, root: int, F: Fences, p: int, i: nat, l: int, r: int)
    requires InternalSiblings(pages, root, F, p, i, l, r)
    ensures Shape(MergeInternal(pages, p, i, l, r), root, MergeFence(F, l, r), Linked)
    ensures SameLeaves(pages, F, MergeInternal(pages, p, i, l, r), MergeFence(F, l, r))
  {
    var pages', F' := MergeInternal(pages, p, i, l, r), MergeFence(F, l, r);
    SiblingFacts(pages, root, F, p, i, l, r);
    forall q | q in F' ensures PageOk(pages', root, F', Linked, q) {
      MergeInternalPage(pages, root, F, p, i, l, r, q);
    }
    forall q | q in F && q != r
      ensures q in pages && q in pages' && (pages'[q].LeafNode? <==> pages[q].LeafNode?)
      ensures pages[q].LeafNode? ==> pages'[q].items == pages[q].items && pages'[q].next == pages[q].next
    {
      MergeInternalAt(pages, root, F, p, i, l, r, q);
    }
  }

  // ----- dropping the root -----------------------------------------------------------------

  function DropRoot(pages: Pages, root: int, child: int): Pages
    requires child in pages
  {
    pages[child := pages[child].(parent := INVALID_PAGE_ID)] - {root}
  }

  /** A root with a single child hands its place to that child. */
  lemma DropRootShape(pages: Pages, root: int, F: Fences, child: int)
    requires Shape(pages, root, F, Linked) && root in pages && pages[root].InternalNode?
    requires |pages[root].entries| == 1 && pages[root].entries[0].child == child
    ensures child in pages && child in F && child != root
    ensures Shape(DropRoot(pages, root, child), child, F - {root}, Linked)
    ensures SameLeaves(pages, F, DropRoot(pages, root, child), F - {root})
  {
    assert PageOk(pages, root, F, Linked, root) && EdgeOk(pages, F, Linked, root, 0);
    var pages', F' := DropRoot(pages, root, child), F - {root};
    forall q | q in F' ensures PageOk(pages', child, F', Linked, q) {
      assert PageOk(pages, root, F, Linked, q);
      var pq, j := ParentOf(pages, root, F, Linked, q);
      if q != child {
        assert pq != root;
        assert IsChild(pages', pq, j, q);
      }
      if pages[q].InternalNode? {
        forall j | 0 <= j < |pages[q].entries| ensures EdgeOk(pages', F', Linked, q, j) {
          assert EdgeOk(pages, F, Linked, q, j);
        }
      }
    }
  }
}
