/** What splitting and linking pages does to the shape of the tree. */
module BTreeGrow {
  import opened Config
  import opened BTreeNodes
  import opened BTreeShape

  function Children(es: seq<Entry>): set<int> {
    set i | 0 <= i < |es| :: es[i].child
  }

  /** The parent-id updates made for all children that move to page p. */
  function Reparent(pages: Pages, ids: set<int>, p: int): (r: Pages)
    ensures r.Keys == pages.Keys
  {
    map q | q in pages :: if q in ids then pages[q].(parent := p) else pages[q]
  }

  /** The two halves of page p once it is cut at separator k, with `right` as the new half. */
  function CutFence(F: Fences, p: int, k: int, right: int): Fences
    requires p in F
  {
    F[p := F[p].(hi := At(k))][right := Fence(At(k), F[p].hi, F[p].level)]
  }

  function LinkChild(pages: Pages, p: int, i: nat, k: int, right: int): Pages
    requires p in pages && pages[p].InternalNode? && i < |pages[p].entries| && right in pages
  {
    pages[p := pages[p].(entries := InsertEntry(pages[p].entries, i, Entry(k, right)))]
         [right := pages[right].(parent := p)]
  }

  function SplitInternal(pages: Pages, p: int, m: nat, right: int): Pages
    requires p in pages && pages[p].InternalNode? && m <= |pages[p].entries|
  {
    var es := pages[p].entries;
    Reparent(pages[p := pages[p].(entries := es[..m])], Children(es[m..]), right)
            [right := InternalNode(INVALID_PAGE_ID, es[m..])]
  }

  function SplitLeaf(pages: Pages, p: int, m: nat, right: int): Pages
    requires p in pages && pages[p].LeafNode? && m <= |pages[p].items|
  {
    var n := pages[p];
    pages[p := LeafNode(n.parent, right, n.items[..m])]
         [right := LeafNode(INVALID_PAGE_ID, n.next, n.items[m..])]
  }

  function NewRoot(pages: Pages, root: int, left: int, k: int, right: int): Pages
    requires left in pages && right in pages
  {
    pages[left := pages[left].(parent := root)]
         [right := pages[right].(parent := root)]
         [root := InternalNode(INVALID_PAGE_ID, [Entry(0, left), Entry(k, right)])]
  }

  // ----- linking a new page into its parent ---------------------------------

  lemma LinkChildShape(pages: Pages, root: int, F: Fences, pend: Pending, k: int, p: int, i: nat)
    requires Shape(pages, root, F, pend) && pend.Unlinked? && pend.left != root
    requires F[pend.right].lo == At(k)
    requires p in pages && p in F && pages[p].InternalNode? && i < |pages[p].entries|
    requires pages[p].entries[i].child == pend.left && pend.right in pages
    ensures Shape(LinkChild(pages, p, i, k, pend.right), root, F, Linked)
  {
    var pages' := LinkChild(pages, p, i, k, pend.right);
    assert PageOk(pages, root, F, pend, pend.left) && PageOk(pages, root, F, pend, pend.right);
    assert PageOk(pages, root, F, pend, p) && EdgeOk(pages, F, pend, p, i);
    LinkChildSelf(pages, root, F, pend, k, p, i);
    forall q | q in F && q != p ensures PageOk(pages', root, F, Linked, q) {
      LinkChildOther(pages, root, F, pend, k, p, i, q);
    }
  }

  lemma LinkChildUp(pages: Pages, root: int, F: Fences, pend: Pending, k: int, p: int, i: nat, q: int)
    requires Shape(pages, root, F, pend) && pend.Unlinked? && pend.left != root
    requires p in pages && p in F && pages[p].InternalNode? && i < |pages[p].entries|
    requires pages[p].entries[i].child == pend.left && pend.right in pages && p != pend.right
    requires q in F && q in pages
    ensures UpOk(LinkChild(pages, p, i, k, pend.right), root, F, Linked, q)
  {
    var pages' := LinkChild(pages, p, i, k, pend.right);
    assert PageOk(pages, root, F, pend, q);
    if q == pend.right {
      assert IsChild(pages', p, i + 1, q);
    } else if q != root {
      var pq := pages[q].parent;
      var j :| IsChild(pages, pq, j, q);
      assert IsChild(pages', pq, if pq == p && j > i then j + 1 else j, q);
    }
  }

  lemma InsertEntryInside(es: seq<Entry>, f: Fence, i: nat, e: Entry)
    requires KeysInside(es, f) && i < |es|
    requires Less(if i == 0 then f.lo else At(es[i].key), At(e.key))
    requires Less(At(e.key), if i + 1 == |es| then f.hi else At(es[i + 1].key))
    ensures KeysInside(InsertEntry(es, i, e), f)
  {
    var r := InsertEntry(es, i, e);
    forall a, b | 1 <= a < b < |r| ensures r[a].key < r[b].key {
      if a == i + 1 {
        assert es[i + 1].key <= es[b - 1].key;
      } else if b == i + 1 {
        assert es[a].key <= es[i].key;
      }
    }
  }

  lemma LinkChildSelf(pages: Pages, root: int, F: Fences, pend: Pending, k: int, p: int, i: nat)
    requires Shape(pages, root, F, pend) && pend.Unlinked? && pend.left != root
    requires F[pend.right].lo == At(k)
    requires p in pages && p in F && pages[p].InternalNode? && i < |pages[p].entries|
    requires pages[p].entries[i].child == pend.left && pend.right in pages && p != pend.right
    ensures PageOk(LinkChild(pages, p, i, k, pend.right), root, F, Linked, p)
  {
    var pages' := LinkChild(pages, p, i, k, pend.right);
    assert PageOk(pages, root, F, pend, pend.left) && PageOk(pages, root, F, pend, pend.right);
    assert PageOk(pages, root, F, pend, p) && EdgeOk(pages, F, pend, p, i);
    LinkChildUp(pages, root, F, pend, k, p, i, p);
    InsertEntryInside(pages[p].entries, F[p], i, Entry(k, pend.right));
    forall j | 0 <= j < |pages'[p].entries| ensures EdgeOk(pages', F, Linked, p, j) {
      LinkChildEdge(pages, root, F, pend, k, p, i, j);
    }
  }

  lemma LinkChildEdge(pages: Pages, root: int, F: Fences, pend: Pending, k: int, p: int, i: nat, j: nat)
    requires Shape(pages, root, F, pend) && pend.Unlinked? && pend.left != root
    requires F[pend.right].lo == At(k)
    requires p in pages && p in F && pages[p].InternalNode? && i < |pages[p].entries|
    requires pages[p].entries[i].child == pend.left && pend.right in pages && p != pend.right
    requires j <= |pages[p].entries|
    ensures EdgeOk(LinkChild(pages, p, i, k, pend.right), F, Linked, p, j)
  {
    assert PageOk(pages, root, F, pend, p) && EdgeOk(pages, F, pend, p, i);
    var es := pages[p].entries;
    if j < i {
      assert EdgeOk(pages, F, pend, p, j);
      assert es[j].child != pend.left by {
        assert j > 0 ==> es[j].key < es[i].key;
      }
    } else if j > i + 1 {
      assert EdgeOk(pages, F, pend, p, j - 1);
      assert es[j - 1].child != pend.left by {
        assert i > 0 ==> es[i].key < es[j - 1].key;
      }
    }
  }

  lemma LinkChildOther(pages: Pages, root: int, F: Fences, pend: Pending, k: int, p: int, i: nat, q: int)
    requires Shape(pages, root, F, pend) && pend.Unlinked? && pend.left != root
    requires p in pages && p in F && pages[p].InternalNode? && i < |pages[p].entries|
    requires pages[p].entries[i].child == pend.left && pend.right in pages && p != pend.right
    requires q in F && q != p
    ensures PageOk(LinkChild(pages, p, i, k, pend.right), root, F, Linked, q)
  {
    var pages' := LinkChild(pages, p, i, k, pend.right);
    assert PageOk(pages, root, F, pend, q);
    LinkChildUp(pages, root, F, pend, k, p, i, q);
    if pages[q].InternalNode? {
      assert PageOk(pages, root, F, pend, p) && EdgeOk(pages, F, pend, p, i);
      forall j | 0 <= j < |pages[q].entries| ensures EdgeOk(pages', F, Linked, q, j) {
        assert EdgeOk(pages, F, pend, q, j);
      }
    }
  }

  // ----- splitting an internal page -------------------------------------------

  lemma DistinctChildren(pages: Pages, root: int, F: Fences, pend: Pending, p: int)
    requires Shape(pages, root, F, pend) && p in F && p in pages && pages[p].InternalNode?
    ensures forall i, j :: 0 <= i < j < |pages[p].entries| ==> pages[p].entries[i].child != pages[p].entries[j].child
  {
    assert PageOk(pages, root, F, pend, p);
    var es := pages[p].entries;
    forall i, j | 0 <= i < j < |es| ensures es[i].child != es[j].child {
      assert EdgeOk(pages, F, pend, p, i) && EdgeOk(pages, F, pend, p, j);
    }
  }

  ghost predicate CanSplit(pages: Pages, root: int, F: Fences, p: int, m: nat, right: int) {
    && Shape(pages, root, F, Linked) && p in F && p in pages && pages[p].InternalNode?
    && 1 <= m < |pages[p].entries| && right !in pages && right !in F && right >= 0
  }

  /** Which pages a split changes, and how. */
  lemma SplitInternalAt(pages: Pages, root: int, F: Fences, p: int, m: nat, right: int, q: int)
    requires CanSplit(pages, root, F, p, m, right) && q in F
    ensures var pages', es := SplitInternal(pages, p, m, right), pages[p].entries;
            && q in pages && q in pages' && q != right
            && (q == p ==> pages'[q] == InternalNode(pages[p].parent, es[..m]))
            && (q in Children(es[m..]) ==> q != p && pages[q].parent == p && pages'[q] == pages[q].(parent := right))
            && (q !in Children(es[m..]) && q != p ==> pages'[q] == pages[q])
  {
    assert PageOk(pages, root, F, Linked, q) && PageOk(pages, root, F, Linked, p);
    var es := pages[p].entries;
    if q in Children(es[m..]) {
      var i :| 0 <= i < |es[m..]| && es[m..][i].child == q;
      assert EdgeOk(pages, F, Linked, p, m + i);
    }
  }

  lemma SplitInternalUp(pages: Pages, root: int, F: Fences, p: int, m: nat, right: int, q: int)
    requires CanSplit(pages, root, F, p, m, right) && q in F
    ensures q in SplitInternal(pages, p, m, right)
    ensures UpOk(SplitInternal(pages, p, m, right), root, CutFence(F, p, pages[p].entries[m].key, right),
      Unlinked(p, right), q)
  {
    var pages', es := SplitInternal(pages, p, m, right), pages[p].entries;
    SplitInternalAt(pages, root, F, p, m, right, q);
    assert PageOk(pages, root, F, Linked, q) && PageOk(pages, root, F, Linked, p);
    if q != root {
      var pq, j := ParentOf(pages, root, F, Linked, q);
      SplitInternalAt(pages, root, F, p, m, right, pq);
      if pq == p && j >= m {
        assert es[m..][j - m] == es[j];
        assert IsChild(pages', right, j - m, q);
      } else {
        if q in Children(es[m..]) {
          var i :| 0 <= i < |es[m..]| && es[m..][i].child == q;
          DistinctChildren(pages, root, F, Linked, p);
          assert false;
        }
        assert IsChild(pages', pq, j, q);
      }
    }
  }

  lemma SplitInternalEdge(pages: Pages, root: int, F: Fences, p: int, m: nat, right: int, q: int, j: nat)
    requires CanSplit(pages, root, F, p, m, right) && q in F && q in pages && pages[q].InternalNode?
    requires j < |pages[q].entries| && (q == p ==> j < m)
    requires q in SplitInternal(pages, p, m, right) && SplitInternal(pages, p, m, right)[q].InternalNode?
    requires j < |SplitInternal(pages, p, m, right)[q].entries|
    ensures EdgeOk(SplitInternal(pages, p, m, right), CutFence(F, p, pages[p].entries[m].key, right),
      Unlinked(p, right), q, j)
  {
    var es := pages[p].entries;
    assert PageOk(pages, root, F, Linked, q) && PageOk(pages, root, F, Linked, p);
    assert EdgeOk(pages, F, Linked, q, j);
    var c := pages[q].entries[j].child;
    SplitInternalAt(pages, root, F, p, m, right, q);
    SplitInternalAt(pages, root, F, p, m, right, c);
    if c in Children(es[m..]) {
      var i :| 0 <= i < |es[m..]| && es[m..][i].child == c;
      DistinctChildren(pages, root, F, Linked, p);
      assert false;
    }
  }

  lemma SplitInternalRight(pages: Pages, root: int, F: Fences, p: int, m: nat, right: int)
    requires CanSplit(pages, root, F, p, m, right)
    ensures PageOk(SplitInternal(pages, p, m, right), root, CutFence(F, p, pages[p].entries[m].key, right),
      Unlinked(p, right), right)
  {
    var pages', es := SplitInternal(pages, p, m, right), pages[p].entries;
    var F' := CutFence(F, p, es[m].key, right);
    assert PageOk(pages, root, F, Linked, p) && PageOk(pages, root, F, Linked, root);
    var rs := es[m..];
    assert forall j :: 0 <= j < |rs| ==> rs[j] == es[m + j];
    assert KeysInside(rs, F'[right]);
    forall j | 0 <= j < |rs| ensures EdgeOk(pages', F', Unlinked(p, right), right, j) {
      assert EdgeOk(pages, F, Linked, p, m + j);
      assert rs[j].child in Children(rs);
      SplitInternalAt(pages, root, F, p, m, right, rs[j].child);
    }
  }

  /** Cutting an internal page in two leaves one shape with the right half unlinked. */
  lemma SplitInternalShape(pages: Pages, root: int, F: Fences, p: int, m: nat, right: int)
    requires CanSplit(pages, root, F, p, m, right)
    ensures Shape(SplitInternal(pages, p, m, right), root, CutFence(F, p, pages[p].entries[m].key, right),
      Unlinked(p, right))
  {
    var pages', es := SplitInternal(pages, p, m, right), pages[p].entries;
    var F', pend := CutFence(F, p, es[m].key, right), Unlinked(p, right);
    SplitInternalRight(pages, root, F, p, m, right);
    assert PageOk(pages, root, F, Linked, p);
    forall q | q in F && q != right ensures PageOk(pages', root, F', pend, q) {
      assert PageOk(pages, root, F, Linked, q);
      SplitInternalAt(pages, root, F, p, m, right, q);
      SplitInternalUp(pages, root, F, p, m, right, q);
      if pages[q].InternalNode? {
        forall j | 0 <= j < |pages'[q].entries| ensures EdgeOk(pages', F', pend, q, j) {
          SplitInternalEdge(pages, root, F, p, m, right, q, j);
        }
      }
    }
  }

  /** An internal split touches no leaf contents and no page above the one split. */
  lemma SplitInternalFrame(pages: Pages, root: int, F: Fences, p: int, m: nat, right: int)
    requires CanSplit(pages, root, F, p, m, right)
    ensures var pages', F' := SplitInternal(pages, p, m, right), CutFence(F, p, pages[p].entries[m].key, right);
            && SameLeaves(pages, F, pages', F')
            && (forall q :: q in F && q != p ==>
               q in pages && q in pages' && pages'[q] == pages[q].(parent := pages'[q].parent))
            && (forall q :: q in F && F[q].level > F[p].level ==> q in pages && q in pages' && pages'[q] == pages[q])
  {
    forall q | q in F && q != p
      ensures q in pages && q in SplitInternal(pages, p, m, right)
      ensures var n := SplitInternal(pages, p, m, right)[q]; n == pages[q].(parent := n.parent)
      ensures F[q].level > F[p].level ==> SplitInternal(pages, p, m, right)[q] == pages[q]
    {
      SplitInternalAt(pages, root, F, p, m, right, q);
      var es := pages[p].entries;
      if q in Children(es[m..]) {
        var i :| 0 <= i < |es[m..]| && es[m..][i].child == q;
        assert PageOk(pages, root, F, Linked, p) && EdgeOk(pages, F, Linked, p, m + i);
      }
    }
    SplitInternalAt(pages, root, F, p, m, right, p);
  }

  // ----- splitting a leaf -------------------------------------------------------

  lemma SplitLeafShape(pages: Pages, root: int, F: Fences, p: int, m: nat, right: int, k: int)
    requires Shape(pages, root, F, Linked) && p in F && p in pages && pages[p].LeafNode?
    requires m <= |pages[p].items| && right !in pages && right !in F && right >= 0
    requires Less(F[p].lo, At(k)) && Less(At(k), F[p].hi)
    ensures Shape(SplitLeaf(pages, p, m, right), root, CutFence(F, p, k, right), Unlinked(p, right))
  {
    var pages' := SplitLeaf(pages, p, m, right);
    var F', pend := CutFence(F, p, k, right), Unlinked(p, right);
    assert PageOk(pages, root, F, Linked, p);
    forall q | q in F' ensures PageOk(pages', root, F', pend, q) {
      if q != right {
        assert PageOk(pages, root, F, Linked, q);
        if q != root {
          var pq, j := ParentOf(pages, root, F, Linked, q);
          assert IsChild(pages', pq, j, q);
        }
        if pages[q].InternalNode? {
          forall j | 0 <= j < |pages[q].entries| ensures EdgeOk(pages', F', pend, q, j) {
            assert EdgeOk(pages, F, Linked, q, j);
          }
        }
      }
    }
  }

  // ----- a new root ---------------------------------------------------------------

  lemma NewRootShape(pages: Pages, root: int, F: Fences, pend: Pending, k: int, root': int)
    requires Shape(pages, root, F, pend) && pend.Unlinked? && pend.left == root && F[pend.right].lo == At(k)
    requires root' !in pages && root' !in F && root' >= 0 && pend.right in pages && root in pages
    ensures Shape(NewRoot(pages, root', root, k, pend.right), root',
                  F[root' := Fence(MinusInf, PlusInf, F[root].level + 1)], Linked)
  {
    var pages' := NewRoot(pages, root', root, k, pend.right);
    var F' := F[root' := Fence(MinusInf, PlusInf, F[root].level + 1)];
    assert PageOk(pages, root, F, pend, root) && PageOk(pages, root, F, pend, pend.right);
    assert EdgeOk(pages', F', Linked, root', 0) && EdgeOk(pages', F', Linked, root', 1);
    forall q | q in F' && q != root' ensures PageOk(pages', root', F', Linked, q) {
      assert PageOk(pages, root, F, pend, q);
      if q == root {
        assert IsChild(pages', root', 0, q);
      } else if q == pend.right {
        assert IsChild(pages', root', 1, q);
      } else {
        var pq, j := ParentOf(pages, root, F, pend, q);
        assert IsChild(pages', pq, j, q);
      }
      if pages[q].InternalNode? {
        forall j | 0 <= j < |pages[q].entries| ensures EdgeOk(pages', F', Linked, q, j) {
          assert EdgeOk(pages, F, pend, q, j);
          assert PageOk(pages, root, F, pend, pages[q].entries[j].child);
        }
      }
    }
    assert PageOk(pages', root', F', Linked, root');
  }

  // ----- leaf contents and the leaf chain ---------------------------------------------

  /** Two tree states with the same leaves: same pairs, same successors, same fences. */
  ghost predicate SameLeaves(pages: Pages, F: Fences, pages': Pages, F': Fences) {
    && (forall p :: p in F' && p in pages' && pages'[p].LeafNode? ==>
          && p in F && p in pages && pages[p].LeafNode? && F'[p] == F[p]
          && pages'[p].items == pages[p].items && pages'[p].next == pages[p].next)
    && (forall p :: p in F && p in pages && pages[p].LeafNode? ==> p in F' && p in pages' && pages'[p].LeafNode?)
  }

  lemma SameLeavesKeep(pages: Pages, F: Fences, pages': Pages, F': Fences, M: map<int, int>)
    requires SameLeaves(pages, F, pages', F')
    requires Chained(pages, F) && Agrees(pages, F, M)
    ensures Chained(pages', F') && Agrees(pages', F', M)
  {
    forall p | p in F' && p in pages' && pages'[p].LeafNode?
      ensures NextOk(pages', F', p) && LeafHolds(pages', F', M, p)
    {
      assert NextOk(pages, F, p) && LeafHolds(pages, F, M, p);
    }
    forall p | p in F' && p in pages' && !pages'[p].LeafNode? ensures LeafHolds(pages', F', M, p) { }
  }

  function PutItems(pages: Pages, p: int, items: seq<Item>): Pages
    requires p in pages && pages[p].LeafNode?
  {
    pages[p := pages[p].(items := items)]
  }

  /** Changing the pairs of one leaf, in order, changes nothing else about the shape. */
  lemma PutItemsShape(pages: Pages, root: int, F: Fences, p: int, items: seq<Item>)
    requires Shape(pages, root, F, Linked) && Chained(pages, F)
    requires p in pages && pages[p].LeafNode? && SortedItems(items)
    ensures Shape(PutItems(pages, p, items), root, F, Linked) && Chained(PutItems(pages, p, items), F)
  {
    var pages' := PutItems(pages, p, items);
    forall q | q in F ensures PageOk(pages', root, F, Linked, q) {
      assert PageOk(pages, root, F, Linked, q);
      if q != root {
        var pq, j := ParentOf(pages, root, F, Linked, q);
        assert IsChild(pages', pq, j, q);
      }
      if pages[q].InternalNode? {
        forall j | 0 <= j < |pages[q].entries| ensures EdgeOk(pages', F, Linked, q, j) {
          assert EdgeOk(pages, F, Linked, q, j);
        }
      }
    }
    forall q | q in F && q in pages' && pages'[q].LeafNode? ensures NextOk(pages', F, q) {
      assert NextOk(pages, F, q);
    }
  }

  /** A key added to, or dropped from, the one leaf responsible for it changes the map at that key only. */
  lemma PutItemsAgrees(pages: Pages, root: int, F: Fences, p: int, k: int, items: seq<Item>, M: map<int, int>,
      M': map<int, int>)
    requires Shape(pages, root, F, Linked) && Agrees(pages, F, M)
    requires p in F && p in pages && pages[p].LeafNode? && Within(F[p], k)
    requires forall x :: x != k ==> (x in M <==> x in M') && (x in M ==> M[x] == M'[x])
    requires Holds(items, F[p], M')
    ensures Agrees(PutItems(pages, p, items), F, M')
  {
    var pages' := PutItems(pages, p, items);
    forall q | q in F && q in pages' ensures LeafHolds(pages', F, M', q) {
      assert LeafHolds(pages, F, M, q);
      if q != p && pages[q].LeafNode? {
        assert PageOk(pages, root, F, Linked, p) && PageOk(pages, root, F, Linked, q);
        if Within(F[q], k) { UniqueAtLevel(pages, root, F, p, q, k); }
      }
    }
  }

  lemma InsertHolds(items: seq<Item>, f: Fence, M: map<int, int>, k: int, v: int)
    requires SortedItems(items) && Holds(items, f, M) && Within(f, k) && k !in M
    ensures !HasKey(items, k) && Holds(InsertItem(items, k, v), f, M[k := v])
  {
    InsertItemSorted(items, k, v);
    var r := InsertItem(items, k, v);
    forall i | 0 <= i < |r|
      ensures Within(f, r[i].key) && r[i].key in M[k := v] && M[k := v][r[i].key] == r[i].val
    {
      assert r[i] in r;
    }
    forall x | x in M[k := v] && Within(f, x) ensures HasKey(r, x) {
      if x == k {
        assert Item(k, v) in r;
      } else {
        var i :| 0 <= i < |items| && items[i].key == x;
        assert items[i] in r;
      }
    }
  }

  lemma RemoveHolds(items: seq<Item>, f: Fence, M: map<int, int>, k: int)
    requires SortedItems(items) && Holds(items, f, M)
    ensures Holds(RemoveItem(items, k), f, M - {k})
  {
    RemoveItemSorted(items, k);
    var r := RemoveItem(items, k);
    forall i | 0 <= i < |r|
      ensures Within(f, r[i].key) && r[i].key in M - {k} && M[r[i].key] == r[i].val
    {
      assert r[i] in r;
    }
    forall x | x in M - {k} && Within(f, x) ensures HasKey(r, x) {
      var i :| 0 <= i < |items| && items[i].key == x;
      assert items[i] in r;
    }
  }

  lemma SplitLeafChained(pages: Pages, F: Fences, p: int, m: nat, right: int, k: int)
    requires Chained(pages, F) && p in F && p in pages && pages[p].LeafNode? && m <= |pages[p].items|
    requires right !in pages && right !in F
    ensures Chained(SplitLeaf(pages, p, m, right), CutFence(F, p, k, right))
  {
    var pages', F' := SplitLeaf(pages, p, m, right), CutFence(F, p, k, right);
    forall q | q in F' && q in pages' && pages'[q].LeafNode? ensures NextOk(pages', F', q) {
      if q == right { assert NextOk(pages, F, p); } else if q != p { assert NextOk(pages, F, q); }
    }
  }

  lemma SplitLeafContents(pages: Pages, root: int, F: Fences, p: int, m: nat, right: int, M: map<int, int>)
    requires Shape(pages, root, F, Linked) && Agrees(pages, F, M)
    requires p in F && p in pages && pages[p].LeafNode? && right !in pages && right !in F
    requires 0 < m < |pages[p].items|
    ensures var k := pages[p].items[m].key;
            && Less(F[p].lo, At(k)) && Less(At(k), F[p].hi)
            && Agrees(SplitLeaf(pages, p, m, right), CutFence(F, p, k, right), M)
  {
    assert PageOk(pages, root, F, Linked, p) && LeafHolds(pages, F, M, p);
    var items := pages[p].items;
    var k := items[m].key;
    assert items[0].key < k && Within(F[p], items[0].key);
    var pages', F' := SplitLeaf(pages, p, m, right), CutFence(F, p, k, right);
    SplitItemsHold(items, F[p], m, M);
    forall q | q in F' && q in pages' ensures LeafHolds(pages', F', M, q) {
      if q != right && q != p { assert LeafHolds(pages, F, M, q); }
    }
  }

  lemma SplitItemsHold(items: seq<Item>, f: Fence, m: nat, M: map<int, int>)
    requires SortedItems(items) && Holds(items, f, M) && 0 < m < |items|
    ensures Holds(items[..m], f.(hi := At(items[m].key)), M)
    ensures Holds(items[m..], f.(lo := At(items[m].key)), M)
  {
    var k := items[m].key;
    forall x | x in M && Within(f.(hi := At(k)), x) ensures HasKey(items[..m], x) {
      var i :| 0 <= i < |items| && items[i].key == x;
      assert items[..m][i].key == x;
    }
    forall x | x in M && Within(f.(lo := At(k)), x) ensures HasKey(items[m..], x) {
      var i :| 0 <= i < |items| && items[i].key == x;
      assert items[m..][i - m].key == x;
    }
  }
}
