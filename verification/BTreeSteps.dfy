/** Every rebalancing step of a removal, with everything it keeps. */
module BTreeSteps {
  import opened BTreeNodes
  import opened BTreeShape
  import opened BTreeGrow
  import opened BTreeShrink
  import opened BTreeBorrow

  /** A step below parent p: a good tree again, with no page above p and no page outside
      `touched` changed, parent ids aside. */
  ghost predicate StepBelow(pages: Pages, root: int, F: Fences, pages': Pages, F': Fences, p: int, touched: set<int>) {
    && Shape(pages', root, F', Linked) && Chained(pages', F')
    && pages'.Keys == F'.Keys && F'.Keys <= F.Keys
    && p in F && p in F' && F'[p] == F[p]
    && KeptAbove(pages, F, pages', F[p].level) && OnlyParents(pages, F', pages', touched)
    && (forall q :: q in F' && q in F ==> F'[q].level == F[q].level && (F[q].level >= F[p].level ==> F'[q] == F[q]))
    && (forall q :: q in F && F[q].level >= F[p].level ==> q in F')
    && (forall q :: q in F && F[q].level + 1 < F[p].level ==> q in F')
  }

  lemma MergeInternalStep(pages: Pages, root: int, F: Fences, M: map<int, int>, p: int, i: nat, l: int, r: int)
    requires InternalSiblings(pages, root, F, p, i, l, r) && Chained(pages, F) && Agrees(pages, F, M)
      && pages.Keys == F.Keys
    ensures var pages', F' := MergeInternal(pages, p, i, l, r), MergeFence(F, l, r);
            && StepBelow(pages, root, F, pages', F', p, {l, p}) && Agrees(pages', F', M)
            && pages'[l].InternalNode? && |pages'[l].entries| == |pages[l].entries| + |pages[r].entries|
            && pages'[p].InternalNode? && |pages'[p].entries| == |pages[p].entries| - 1
  {
    var pages', F' := MergeInternal(pages, p, i, l, r), MergeFence(F, l, r);
    SiblingFacts(pages, root, F, p, i, l, r);
    MergeInternalShape(pages, root, F, p, i, l, r);
    SameLeavesKeep(pages, F, pages', F', M);
    MergeInternalAt(pages, root, F, p, i, l, r, l);
    MergeInternalAt(pages, root, F, p, i, l, r, p);
    MergeInternalFrame(pages, root, F, p, i, l, r);
    assert pages'.Keys == F'.Keys;
  }

  lemma MergeInternalFrame(pages: Pages, root: int, F: Fences, p: int, i: nat, l: int, r: int)
    requires InternalSiblings(pages, root, F, p, i, l, r)
    ensures KeptAbove(pages, F, MergeInternal(pages, p, i, l, r), F[p].level)
    ensures OnlyParents(pages, MergeFence(F, l, r), MergeInternal(pages, p, i, l, r), {l, p})
  {
    SiblingFacts(pages, root, F, p, i, l, r);
    forall q | q in F && q != r && q != l && q != p
      ensures var pages' := MergeInternal(pages, p, i, l, r);
              q in pages && q in pages' && pages'[q] == pages[q].(parent := pages'[q].parent)
      ensures F[q].level > F[p].level ==> MergeInternal(pages, p, i, l, r)[q] == pages[q]
    {
      MergeInternalAt(pages, root, F, p, i, l, r, q);
      if q in Children(pages[r].entries) {
        var j :| 0 <= j < |pages[r].entries| && pages[r].entries[j].child == q;
        assert PageOk(pages, root, F, Linked, r) && EdgeOk(pages, F, Linked, r, j);
      }
    }
  }

  lemma MergeLeafStep(pages: Pages, root: int, F: Fences, M: map<int, int>, p: int, i: nat, l: int, r: int)
    requires Shape(pages, root, F, Linked) && Chained(pages, F) && Agrees(pages, F, M) && pages.Keys == F.Keys
    requires Siblings(pages, F, p, i, l, r) && pages[l].LeafNode? && pages[r].LeafNode?
    ensures var pages', F' := MergeLeaf(pages, p, i, l, r), MergeFence(F, l, r);
            && StepBelow(pages, root, F, pages', F', p, {l, p}) && Agrees(pages', F', M)
            && pages'[l].LeafNode? && |pages'[l].items| == |pages[l].items| + |pages[r].items|
            && pages'[p].InternalNode? && |pages'[p].entries| == |pages[p].entries| - 1
  {
    SiblingFacts(pages, root, F, p, i, l, r);
    MergeLeafOk(pages, root, F, M, p, i, l, r);
    assert MergeLeaf(pages, p, i, l, r).Keys == MergeFence(F, l, r).Keys;
  }

  lemma RebalanceInternalStep(pages: Pages, root: int, F: Fences, M: map<int, int>, p: int, i: nat, l: int, r: int,
      m: nat, junk: int)
    requires InternalSiblings(pages, root, F, p, i, l, r) && Chained(pages, F) && Agrees(pages, F, M)
      && pages.Keys == F.Keys
    requires 1 <= m < |pages[l].entries| + |pages[r].entries|
    ensures var k := JoinEntries(pages[l].entries, pages[p].entries[i].key, pages[r].entries)[m].key;
            var u, F' := RebalanceInternal(pages, p, i, l, r, m), BorrowFence(F, l, r, k);
            && r in u && u[r].InternalNode? && |u[r].entries| > 0
            && var pages' := u[r := u[r].(entries := SetKey(u[r].entries, 0, junk))];
               && StepBelow(pages, root, F, pages', F', p, {l, r, p}) && Agrees(pages', F', M)
               && pages'[l].InternalNode? && |pages'[l].entries| == m
               && pages'[r].InternalNode? && |pages'[r].entries| == |pages[l].entries| + |pages[r].entries| - m
               && pages'[p].InternalNode? && |pages'[p].entries| == |pages[p].entries|
  {
    SiblingFacts(pages, root, F, p, i, l, r);
    RebalanceInternalShape(pages, root, F, p, i, l, r, m);
    var full := JoinEntries(pages[l].entries, pages[p].entries[i].key, pages[r].entries);
    var u, F' := RebalanceInternal(pages, p, i, l, r, m), BorrowFence(F, l, r, full[m].key);
    assert |full| == |pages[l].entries| + |pages[r].entries|;
    RebalanceInternalFrame(pages, root, F, p, i, l, r, m);
    RebalanceTail(pages, root, F, M, u, F', p, l, r, junk);
  }

  /** Borrowing the last child of the left neighbour. */
  lemma BorrowLastStep(pages: Pages, root: int, F: Fences, M: map<int, int>, p: int, i: nat, l: int, r: int)
    requires InternalSiblings(pages, root, F, p, i, l, r) && Chained(pages, F) && Agrees(pages, F, M)
      && pages.Keys == F.Keys
    requires |pages[l].entries| > 1
    ensures pages[l].entries[|pages[l].entries| - 1].child in pages
    ensures var pages', F' := BorrowLast(pages, p, i, l, r),
      BorrowFence(F, l, r, pages[l].entries[|pages[l].entries| - 1].key);
            && StepBelow(pages, root, F, pages', F', p, {l, r, p}) && Agrees(pages', F', M)
            && pages'[l].InternalNode? && |pages'[l].entries| == |pages[l].entries| - 1
            && pages'[r].InternalNode? && |pages'[r].entries| == |pages[r].entries| + 1
            && pages'[p].InternalNode? && |pages'[p].entries| == |pages[p].entries|
  {
    var m := |pages[l].entries| - 1;
    assert JoinEntries(pages[l].entries, pages[p].entries[i].key, pages[r].entries)[m] == pages[l].entries[m];
    RebalanceInternalStep(pages, root, F, M, p, i, l, r, m, pages[r].entries[0].key);
    BorrowLastIs(pages, root, F, p, i, l, r);
  }

  /** Borrowing the first child of the right neighbour. */
  lemma BorrowFirstStep(pages: Pages, root: int, F: Fences, M: map<int, int>, p: int, i: nat, l: int, r: int)
    requires InternalSiblings(pages, root, F, p, i, l, r) && Chained(pages, F) && Agrees(pages, F, M)
      && pages.Keys == F.Keys
    requires |pages[r].entries| > 1
    ensures pages[r].entries[0].child in pages
    ensures var pages', F' := BorrowFirst(pages, p, i, l, r), BorrowFence(F, l, r, pages[r].entries[1].key);
            && StepBelow(pages, root, F, pages', F', p, {l, r, p}) && Agrees(pages', F', M)
            && pages'[l].InternalNode? && |pages'[l].entries| == |pages[l].entries| + 1
            && pages'[r].InternalNode? && |pages'[r].entries| == |pages[r].entries| - 1
            && pages'[p].InternalNode? && |pages'[p].entries| == |pages[p].entries|
  {
    var m := |pages[l].entries| + 1;
    JoinFirst(pages[l].entries, pages[p].entries[i].key, pages[r].entries);
    RebalanceInternalStep(pages, root, F, M, p, i, l, r, m, pages[r].entries[0].key);
    BorrowFirstIs(pages, root, F, p, i, l, r);
  }

  lemma RebalanceTail(pages: Pages, root: int, F: Fences, M: map<int, int>, u: Pages, F': Fences, p: int, l: int,
      r: int, junk: int)
    requires Shape(u, root, F', Linked) && SameLeaves(pages, F, u, F') && Chained(pages, F) && Agrees(pages, F, M)
    requires r in u && u[r].InternalNode? && |u[r].entries| > 0 && u.Keys == F'.Keys == F.Keys && p in F
    requires KeptAbove(pages, F, u, F[p].level) && OnlyParents(pages, F', u, {l, r, p})
    requires l in F && F[r].level < F[p].level && F[l].level < F[p].level
      && (forall q :: q in F ==> F'[q].level == F[q].level && (q != l && q != r ==> F'[q] == F[q]))
    ensures var pages' := u[r := u[r].(entries := SetKey(u[r].entries, 0, junk))];
            StepBelow(pages, root, F, pages', F', p, {l, r, p}) && Agrees(pages', F', M)
  {
    FirstKeyIdle(u, root, F', r, junk);
    var pages' := u[r := u[r].(entries := SetKey(u[r].entries, 0, junk))];
    SameLeavesKeep(pages, F, u, F', M);
    SameLeavesKeep(u, F', pages', F', M);
  }

  lemma RebalanceInternalFrame(pages: Pages, root: int, F: Fences, p: int, i: nat, l: int, r: int, m: nat)
    requires InternalSiblings(pages, root, F, p, i, l, r) && m < |pages[l].entries| + |pages[r].entries|
    ensures KeptAbove(pages, F, RebalanceInternal(pages, p, i, l, r, m), F[p].level)
    ensures OnlyParents(pages, F, RebalanceInternal(pages, p, i, l, r, m), {l, r, p})
  {
    SiblingFacts(pages, root, F, p, i, l, r);
    JoinChildrenDistinct(pages, root, F, p, i, l, r);
    var full := JoinEntries(pages[l].entries, pages[p].entries[i].key, pages[r].entries);
    forall q | q in F && q in pages && q != r && q != l && q != p
      ensures var u := RebalanceInternal(pages, p, i, l, r, m);
              q in u && u[q] == pages[q].(parent := u[q].parent)
      ensures F[q].level > F[p].level ==> RebalanceInternal(pages, p, i, l, r, m)[q] == pages[q]
    {
      RebalanceInternalChild(pages, root, F, p, i, l, r, m, q);
      if j :| 0 <= j < |full| && full[j].child == q {
        assert PageOk(pages, root, F, Linked, l) && PageOk(pages, root, F, Linked, r);
        if j < |pages[l].entries| { assert EdgeOk(pages, F, Linked, l, j); }
        else { assert EdgeOk(pages, F, Linked, r, j - |pages[l].entries|); }
      }
    }
  }

  lemma RebalanceLeafStep(pages: Pages, root: int, F: Fences, M: map<int, int>, p: int, i: nat, l: int, r: int, m: nat,
      k: int)
    requires Shape(pages, root, F, Linked) && Chained(pages, F) && Agrees(pages, F, M) && pages.Keys == F.Keys
    requires Siblings(pages, F, p, i, l, r) && pages[l].LeafNode? && pages[r].LeafNode?
    requires m <= |pages[l].items| + |pages[r].items|
    requires Less(F[l].lo, At(k)) && Less(At(k), F[r].hi)
    ensures var pages', F' := RebalanceLeaf(pages, p, i, l, r, m, k), BorrowFence(F, l, r, k);
            && StepBelow(pages, root, F, pages', F', p, {l, r, p})
            && pages'[l].LeafNode? && |pages'[l].items| == m
            && pages'[r].LeafNode? && |pages'[r].items| == |pages[l].items| + |pages[r].items| - m
            && pages'[p].InternalNode? && |pages'[p].entries| == |pages[p].entries|
  {
    SiblingFacts(pages, root, F, p, i, l, r);
    RebalanceLeafShape(pages, root, F, M, p, i, l, r, m, k);
    assert RebalanceLeaf(pages, p, i, l, r, m, k).Keys == BorrowFence(F, l, r, k).Keys;
  }
}
