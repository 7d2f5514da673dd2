/** The shape of a B+ tree stored as a map from page id to page. Every page carries a ghost
    fence: the half-open key range it is responsible for and its height above the leaves. */
module BTreeShape {
  import opened Config
  import opened BTreeNodes

  datatype Bound = MinusInf | At(key: int) | PlusInf

  predicate LeKey(b: Bound, k: int) { b.MinusInf? || (b.At? && b.key <= k) }

  predicate GtKey(b: Bound, k: int) { b.PlusInf? || (b.At? && k < b.key) }

  predicate Less(a: Bound, b: Bound) {
    match (a, b)
    case (MinusInf, MinusInf) => false
    case (MinusInf, _) => true
    case (At(x), At(y)) => x < y
    case (At(_), PlusInf) => true
    case (_, _) => false
  }

  datatype Fence = Fence(lo: Bound, hi: Bound, level: nat)

  predicate Within(f: Fence, k: int) { LeKey(f.lo, k) && GtKey(f.hi, k) }

  type Pages = map<int, Node>
  type Fences = map<int, Fence>

  /** While a split travels upwards, page `right` has been cut off `left` but no parent knows it. */
  datatype Pending = Linked | Unlinked(left: int, right: int)

  /** The upper bound that the parent of c still sees. */
  function HiSeen(F: Fences, pend: Pending, c: int): Bound
    requires c in F && (pend.Unlinked? ==> pend.right in F)
  {
    if pend.Unlinked? && c == pend.left then F[pend.right].hi else F[c].hi
  }

  ghost predicate PendingOk(root: int, F: Fences, pend: Pending) {
    pend.Unlinked? ==>
      && pend.left in F && pend.right in F && pend.left != pend.right && pend.right != root
      && F[pend.left].hi == F[pend.right].lo && F[pend.left].hi.At?
      && F[pend.left].level == F[pend.right].level
  }

  /** The i-th child of p points back at p and owns exactly the keys between its separators. */
  ghost predicate EdgeOk(pages: Pages, F: Fences, pend: Pending, p: int, i: int)
    requires p in pages && p in F && pages[p].InternalNode? && 0 <= i < |pages[p].entries|
    requires pend.Unlinked? ==> pend.right in F
  {
    var es := pages[p].entries;
    var c := es[i].child;
    && c in F && c in pages && pages[c].parent == p
    && (pend.Unlinked? ==> c != pend.right)
    && F[c].level + 1 == F[p].level
    && F[c].lo == (if i == 0 then F[p].lo else At(es[i].key))
    && HiSeen(F, pend, c) == (if i + 1 == |es| then F[p].hi else At(es[i + 1].key))
  }

  ghost predicate KeysInside(es: seq<Entry>, f: Fence) {
    SortedEntries(es) &&
    forall i :: 1 <= i < |es| ==> Less(f.lo, At(es[i].key)) && Less(At(es[i].key), f.hi)
  }

  ghost predicate IsChild(pages: Pages, p: int, i: int, c: int) {
    p in pages && pages[p].InternalNode? && 0 <= i < |pages[p].entries| && pages[p].entries[i].child == c
  }

  /** The root is nobody's child and spans every key; any other page is a child of its parent. */
  ghost predicate UpOk(pages: Pages, root: int, F: Fences, pend: Pending, p: int)
    requires p in pages && p in F && (pend.Unlinked? ==> pend.right in F)
  {
    if p == root then
      pages[p].parent == INVALID_PAGE_ID && F[p].lo == MinusInf && HiSeen(F, pend, p) == PlusInf
    else if pend.Unlinked? && p == pend.right then
      true
    else
      pages[p].parent in F && exists i :: IsChild(pages, pages[p].parent, i, p)
  }

  ghost predicate PageOk(pages: Pages, root: int, F: Fences, pend: Pending, p: int)
    requires root in F && (pend.Unlinked? ==> pend.right in F)
  {
    && p in pages && p in F && p >= 0
    && Less(F[p].lo, F[p].hi)
    && F[p].level <= F[root].level
    && UpOk(pages, root, F, pend, p)
    && match pages[p]
       case LeafNode(_, _, items) => F[p].level == 0 && SortedItems(items)
       case InternalNode(_, es) =>
         && F[p].level > 0 && |es| > 0 && KeysInside(es, F[p])
         && forall i {:trigger EdgeOk(pages, F, pend, p, i)} :: 0 <= i < |es| ==> EdgeOk(pages, F, pend, p, i)
  }

  /** All pages reachable from root form one balanced search tree with correct parent ids. */
  ghost predicate Shape(pages: Pages, root: int, F: Fences, pend: Pending) {
    && root in F && PendingOk(root, F, pend)
    && forall p {:trigger PageOk(pages, root, F, pend, p)} :: p in F ==> PageOk(pages, root, F, pend, p)
  }

  /** Each leaf's successor in the chain starts where the leaf ends. */
  ghost predicate NextOk(pages: Pages, F: Fences, p: int)
    requires p in pages && p in F && pages[p].LeafNode?
  {
    var n := pages[p].next;
    if F[p].hi == PlusInf then n == INVALID_PAGE_ID
    else n in pages && n in F && pages[n].LeafNode? && F[n].lo == F[p].hi
  }

  ghost predicate Chained(pages: Pages, F: Fences) {
    forall p {:trigger NextOk(pages, F, p)} :: p in F && p in pages && pages[p].LeafNode? ==> NextOk(pages, F, p)
  }

  /** Inside its fence a leaf holds exactly the pairs of the abstract map. */
  ghost predicate Holds(items: seq<Item>, f: Fence, M: map<int, int>) {
    && (forall i :: 0 <= i < |items| ==>
          Within(f, items[i].key) && items[i].key in M && M[items[i].key] == items[i].val)
    && (forall k :: k in M && Within(f, k) ==> HasKey(items, k))
  }

  ghost predicate LeafHolds(pages: Pages, F: Fences, M: map<int, int>, p: int)
    requires p in pages && p in F
  {
    pages[p].LeafNode? ==> Holds(pages[p].items, F[p], M)
  }

  ghost predicate Agrees(pages: Pages, F: Fences, M: map<int, int>) {
    forall p {:trigger LeafHolds(pages, F, M, p)} :: p in F && p in pages ==> LeafHolds(pages, F, M, p)
  }

  datatype Limits = Limits(leafMax: int, internalMax: int) {
    ghost predicate Valid() { leafMax >= 2 && internalMax >= 4 }
  }

  predicate SizeOk(n: Node, isRoot: bool, lim: Limits) {
    match n
    case LeafNode(_, _, items) => (if isRoot then 1 else lim.leafMax / 2) <= |items| <= lim.leafMax
    case InternalNode(_, es) => (if isRoot then 2 else lim.internalMax / 2) <= |es| <= lim.internalMax
  }

  /** Every page except possibly `exempt` is at least half full and at most full. */
  ghost predicate SizesExcept(pages: Pages, root: int, F: Fences, lim: Limits, exempt: int) {
    forall p :: p in F && p in pages && p != exempt ==> SizeOk(pages[p], p == root, lim)
  }

  // ----- reading the tree --------------------------------------------------

  /** Following the separators for k from p leads to the child whose fence contains k. */
  lemma ChildWithin(pages: Pages, root: int, F: Fences, pend: Pending, p: int, k: int)
    requires Shape(pages, root, F, pend) && p in F && p in pages && pages[p].InternalNode?
    requires Within(F[p], k) && |pages[p].entries| > 0
    ensures var c := pages[p].entries[ChildIndex(pages[p].entries, k)].child;
            && c in F && c in pages && pages[c].parent == p && F[c].level + 1 == F[p].level
            && LeKey(F[c].lo, k) && (pend.Linked? ==> Within(F[c], k))
  {
    assert PageOk(pages, root, F, pend, p);
    var i := ChildIndex(pages[p].entries, k);
    assert EdgeOk(pages, F, pend, p, i);
  }

  /** Siblings with a common key are the same page. */
  lemma SameChild(pages: Pages, root: int, F: Fences, p: int, i: int, j: int, k: int)
    requires Shape(pages, root, F, Linked) && p in F && p in pages && pages[p].InternalNode?
    requires 0 <= i < |pages[p].entries| && 0 <= j < |pages[p].entries|
    requires pages[p].entries[i].child in F && Within(F[pages[p].entries[i].child], k)
    requires pages[p].entries[j].child in F && Within(F[pages[p].entries[j].child], k)
    ensures i == j
  {
    assert PageOk(pages, root, F, Linked, p);
    assert EdgeOk(pages, F, Linked, p, i) && EdgeOk(pages, F, Linked, p, j);
  }

  /** At each level at most one page is responsible for a key. */
  lemma {:induction false} UniqueAtLevel(pages: Pages, root: int, F: Fences, p: int, q: int, k: int)
    requires Shape(pages, root, F, Linked) && p in F && q in F
    requires F[p].level == F[q].level && Within(F[p], k) && Within(F[q], k)
    ensures p == q
    decreases F[root].level - F[p].level
  {
    assert PageOk(pages, root, F, Linked, p) && PageOk(pages, root, F, Linked, q);
    if p != root && q != root {
      var pp, i := ParentOf(pages, root, F, Linked, p);
      var qq, j := ParentOf(pages, root, F, Linked, q);
      ParentWithin(pages, root, F, pp, i, k);
      ParentWithin(pages, root, F, qq, j, k);
      UniqueAtLevel(pages, root, F, pp, qq, k);
      SameChild(pages, root, F, pp, i, j, k);
    } else if p != root {
      var pp, i := ParentOf(pages, root, F, Linked, p);
    } else if q != root {
      var qq, j := ParentOf(pages, root, F, Linked, q);
    }
  }

  lemma ParentOf(pages: Pages, root: int, F: Fences, pend: Pending, p: int) returns (q: int, i: int)
    requires Shape(pages, root, F, pend) && p in F && p != root
    requires pend.Unlinked? ==> p != pend.right
    ensures p in pages && q == pages[p].parent && q in F && q in pages && pages[q].InternalNode?
    ensures 0 <= i < |pages[q].entries| && pages[q].entries[i].child == p
    ensures EdgeOk(pages, F, pend, q, i)
    ensures F[p].level + 1 == F[q].level <= F[root].level
  {
    assert PageOk(pages, root, F, pend, p);
    q := pages[p].parent;
    i :| IsChild(pages, q, i, p);
    assert PageOk(pages, root, F, pend, q);
    assert EdgeOk(pages, F, pend, q, i);
  }

  lemma ParentWithin(pages: Pages, root: int, F: Fences, p: int, i: int, k: int)
    requires Shape(pages, root, F, Linked) && p in F && p in pages && pages[p].InternalNode?
    requires 0 <= i < |pages[p].entries|
    requires pages[p].entries[i].child in F && Within(F[pages[p].entries[i].child], k)
    ensures Within(F[p], k)
  {
    assert PageOk(pages, root, F, Linked, p);
    assert EdgeOk(pages, F, Linked, p, i);
  }

  /** As ParentWithin, for a key of either half of a page whose split is still pending. */
  lemma PendingParentWithin(pages: Pages, root: int, F: Fences, pend: Pending, p: int, i: int, k: int)
    requires Shape(pages, root, F, pend) && pend.Unlinked? && p in F && p in pages && pages[p].InternalNode?
    requires 0 <= i < |pages[p].entries| && pages[p].entries[i].child == pend.left
    requires LeKey(F[pend.left].lo, k) && GtKey(F[pend.right].hi, k)
    ensures Within(F[p], k)
  {
    assert PageOk(pages, root, F, pend, p);
    assert EdgeOk(pages, F, pend, p, i);
  }

  /** The whole tree: shape, leaf chain, contents and page sizes. */
  ghost predicate TreeOk(pages: Pages, root: int, F: Fences, pend: Pending, M: map<int, int>, lim: Limits) {
    && Shape(pages, root, F, pend) && Chained(pages, F) && Agrees(pages, F, M)
    && SizesExcept(pages, root, F, lim, INVALID_PAGE_ID)
  }

  // ----- what an operation leaves alone ------------------------------------------

  /** A page on the search path of k that an insertion cannot overflow. */
  ghost predicate InsertSafe(pages: Pages, F: Fences, lim: Limits, k: int, a: int) {
    && a in F && a in pages && Within(F[a], k)
    && match pages[a]
       case LeafNode(_, _, items) => |items| < lim.leafMax
       case InternalNode(_, es) => |es| < lim.internalMax
  }

  ghost predicate KeptAbove(pages: Pages, F: Fences, pages': Pages, level: nat) {
    forall q :: q in F && q in pages && F[q].level > level ==> q in pages' && pages'[q] == pages[q]
  }

  /** A page on the search path of k that a removal cannot bring down to its lower limit. */
  ghost predicate RemoveSafe(pages: Pages, F: Fences, lim: Limits, k: int, a: int) {
    && a in F && a in pages && Within(F[a], k)
    && match pages[a]
       case LeafNode(_, _, items) => |items| > lim.leafMax / 2 + 1
       case InternalNode(_, es) => |es| > lim.internalMax / 2 + 1
  }

  /** pages' differs from pages only in parent ids, except at the pages in `touched`. */
  ghost predicate OnlyParents(pages: Pages, F: Fences, pages': Pages, touched: set<int>) {
    forall q :: q in F && q in pages && q !in touched ==>
      q in pages' && pages'[q] == pages[q].(parent := pages'[q].parent)
  }

  /** Page sizes carry over when only parent ids and the pages in `touched` have changed. */
  lemma SizesCarry(pages: Pages, root: int, F: Fences, pages': Pages, F': Fences, touched: set<int>, lim: Limits,
                   exempt: int, exempt': int)
    requires SizesExcept(pages, root, F, lim, exempt) && OnlyParents(pages, F', pages', touched)
    requires forall q :: q in F' && q !in touched ==> q in F && q in pages
    requires exempt in touched || exempt !in F'
    requires forall q :: q in touched && q in F' && q in pages' && q != exempt' ==> SizeOk(pages'[q], q == root, lim)
    requires forall q :: q in F' ==> q != INVALID_PAGE_ID
    ensures SizesExcept(pages', root, F', lim, exempt')
  {
    forall q | q in F' && q in pages' && q != exempt' ensures SizeOk(pages'[q], q == root, lim) {
      if q !in touched { assert SizeOk(pages[q], q == root, lim); }
    }
  }
}
