/** Borrowing between neighbours, seen as a merge followed by a cut at a different place. */
module BTreeBorrow {
  import opened BTreeNodes
  import opened BTreeShape
  import opened BTreeGrow
  import opened BTreeShrink

  function BorrowFence(F: Fences, l: int, r: int, k: int): Fences
    requires l in F && r in F
  {
    F[l := F[l].(hi := At(k))][r := F[r].(lo := At(k))]
  }

  lemma BorrowFenceIs(F: Fences, l: int, r: int, k: int)
    requires l in F && r in F && l != r && F[l].level == F[r].level
    ensures CutFence(MergeFence(F, l, r), l, k, r) == BorrowFence(F, l, r, k)
  {
  }

  /** Leaves l and r share out their pairs anew: the first m stay left, and k separates them. */
  function RebalanceLeaf(pages: Pages, p: int, i: nat, l: int, r: int, m: nat, k: int): Pages
    requires p in pages && pages[p].InternalNode? && i < |pages[p].entries|
    requires l in pages && pages[l].LeafNode? && r in pages && pages[r].LeafNode?
    requires m <= |pages[l].items| + |pages[r].items|
  {
    var full := pages[l].items + pages[r].items;
    pages[l := pages[l].(items := full[..m])][r := pages[r].(items := full[m..])]
         [p := pages[p].(entries := SetKey(pages[p].entries, i, k))]
  }

  /** The last pair of l becomes the first of r, and its key the separator. */
  function BorrowLastPair(pages: Pages, p: int, i: nat, l: int, r: int): Pages
    requires p in pages && pages[p].InternalNode? && i < |pages[p].entries|
    requires l in pages && pages[l].LeafNode? && r in pages && pages[r].LeafNode? && |pages[l].items| > 0
  {
    var ls, rs := pages[l].items, pages[r].items;
    var pair := ls[|ls| - 1];
    pages[l := pages[l].(items := ls[..|ls| - 1])][r := pages[r].(items := [pair] + rs)]
         [p := pages[p].(entries := SetKey(pages[p].entries, i, pair.key))]
  }

  /** The first pair of r becomes the last of l, and its own key the separator. */
  function BorrowFirstPair(pages: Pages, p: int, i: nat, l: int, r: int): Pages
    requires p in pages && pages[p].InternalNode? && i < |pages[p].entries|
    requires l in pages && pages[l].LeafNode? && r in pages && pages[r].LeafNode? && |pages[r].items| > 0
  {
    var ls, rs := pages[l].items, pages[r].items;
    pages[l := pages[l].(items := ls + [rs[0]])][r := pages[r].(items := rs[1..])]
         [p := pages[p].(entries := SetKey(pages[p].entries, i, rs[0].key))]
  }

  lemma BorrowPairsAre(pages: Pages, p: int, i: nat, l: int, r: int)
    requires p in pages && pages[p].InternalNode? && i < |pages[p].entries|
    requires l in pages && pages[l].LeafNode? && r in pages && pages[r].LeafNode?
    ensures |pages[l].items| > 0 ==>
              var m := |pages[l].items| - 1;
              BorrowLastPair(pages, p, i, l, r) == RebalanceLeaf(pages, p, i, l, r, m, pages[l].items[m].key)
    ensures |pages[r].items| > 0 ==>
              BorrowFirstPair(pages, p, i, l, r)
                == RebalanceLeaf(pages, p, i, l, r, |pages[l].items| + 1, pages[r].items[0].key)
  {
    var ls, rs := pages[l].items, pages[r].items;
    var full := ls + rs;
    if |ls| > 0 { assert full[..|ls| - 1] == ls[..|ls| - 1] && full[|ls| - 1..] == [ls[|ls| - 1]] + rs; }
    if |rs| > 0 { assert full[..|ls| + 1] == ls + [rs[0]] && full[|ls| + 1..] == rs[1..]; }
  }

  lemma RebalanceLeafIs(pages: Pages, root: int, F: Fences, p: int, i: nat, l: int, r: int, m: nat, k: int)
    requires Shape(pages, root, F, Linked) && Chained(pages, F)
    requires Siblings(pages, F, p, i, l, r) && pages[l].LeafNode? && pages[r].LeafNode?
    requires m <= |pages[l].items| + |pages[r].items| && l != r && l != p && r != p
    ensures var s := SplitLeaf(MergeLeaf(pages, p, i, l, r), l, m, r);
            p in s && s[p].InternalNode? && i - 1 < |s[p].entries| && r in s &&
            LinkChild(s, p, i - 1, k, r) == RebalanceLeaf(pages, p, i, l, r, m, k)
  {
    SiblingFacts(pages, root, F, p, i, l, r);
    NextIsSibling(pages, root, F, p, i, l, r);
    var es := pages[p].entries;
    assert InsertEntry(RemoveEntry(es, i), i - 1, Entry(k, r)) == SetKey(es, i, k);
    var s := SplitLeaf(MergeLeaf(pages, p, i, l, r), l, m, r);
    var a, b := LinkChild(s, p, i - 1, k, r), RebalanceLeaf(pages, p, i, l, r, m, k);
    assert a.Keys == b.Keys;
    assert a[l] == b[l] && a[r] == b[r] && a[p] == b[p];
  }

  /** Any cut of the shared pairs, with any separator inside, keeps shape and chain. */
  lemma RebalanceLeafShape(pages: Pages, root: int, F: Fences, M: map<int, int>, p: int, i: nat, l: int, r: int, m: nat,
      k: int)
    requires Shape(pages, root, F, Linked) && Chained(pages, F) && Agrees(pages, F, M)
    requires Siblings(pages, F, p, i, l, r) && pages[l].LeafNode? && pages[r].LeafNode?
    requires m <= |pages[l].items| + |pages[r].items|
    requires Less(F[l].lo, At(k)) && Less(At(k), F[r].hi)
    ensures var pages', F' := RebalanceLeaf(pages, p, i, l, r, m, k), BorrowFence(F, l, r, k);
            Shape(pages', root, F', Linked) && Chained(pages', F')
  {
    SiblingFacts(pages, root, F, p, i, l, r);
    MergeLeafOk(pages, root, F, M, p, i, l, r);
    var a, Fa := MergeLeaf(pages, p, i, l, r), MergeFence(F, l, r);
    assert PageOk(pages, root, F, Linked, r);
    SplitLeafShape(a, root, Fa, l, m, r, k);
    SplitLeafChained(a, Fa, l, m, r, k);
    BorrowFenceIs(F, l, r, k);
    RebalanceLeafIs(pages, root, F, p, i, l, r, m, k);
    LinkLeafBack(SplitLeaf(a, l, m, r), root, BorrowFence(F, l, r, k), p, i, l, r, k);
  }

  lemma LinkLeafBack(s: Pages, root: int, F: Fences, p: int, i: nat, l: int, r: int, k: int)
    requires Shape(s, root, F, Unlinked(l, r)) && Chained(s, F) && l != root && F[r].lo == At(k)
    requires p in s && p in F && s[p].InternalNode? && 1 <= i <= |s[p].entries| && s[p].entries[i - 1].child == l
    requires r in s && s[r].LeafNode?
    ensures Shape(LinkChild(s, p, i - 1, k, r), root, F, Linked) && Chained(LinkChild(s, p, i - 1, k, r), F)
  {
    LinkChildShape(s, root, F, Unlinked(l, r), k, p, i - 1);
    var t := LinkChild(s, p, i - 1, k, r);
    assert PageOk(s, root, F, Unlinked(l, r), r) && PageOk(s, root, F, Unlinked(l, r), p);
    forall q | q in F && q in t && t[q].LeafNode? ensures NextOk(t, F, q) {
      assert NextOk(s, F, q);
    }
  }

  /** When the separator is the first key on the right, every pair is still found. */
  lemma RebalanceLeafAgrees(pages: Pages, root: int, F: Fences, M: map<int, int>, p: int, i: nat, l: int, r: int,
      m: nat, k: int)
    requires Shape(pages, root, F, Linked) && Chained(pages, F) && Agrees(pages, F, M)
    requires Siblings(pages, F, p, i, l, r) && pages[l].LeafNode? && pages[r].LeafNode?
    requires 0 < m < |pages[l].items| + |pages[r].items| && k == (pages[l].items + pages[r].items)[m].key
    ensures Less(F[l].lo, At(k)) && Less(At(k), F[r].hi)
    ensures Agrees(RebalanceLeaf(pages, p, i, l, r, m, k), BorrowFence(F, l, r, k), M)
  {
    SiblingFacts(pages, root, F, p, i, l, r);
    MergeLeafOk(pages, root, F, M, p, i, l, r);
    var a, Fa := MergeLeaf(pages, p, i, l, r), MergeFence(F, l, r);
    SplitLeafContents(a, root, Fa, l, m, r, M);
    BorrowFenceIs(F, l, r, k);
    RebalanceLeafIs(pages, root, F, p, i, l, r, m, k);
    var s, t, F' := SplitLeaf(a, l, m, r), RebalanceLeaf(pages, p, i, l, r, m, k), BorrowFence(F, l, r, k);
    forall q | q in F' && q in t ensures LeafHolds(t, F', M, q) {
      assert LeafHolds(s, F', M, q);
    }
  }

  // ----- internal pages -------------------------------------------------------------------

  /** The key of entry 0 means nothing. */
  lemma FirstKeyIdle(pages: Pages, root: int, F: Fences, p: int, k: int)
    requires Shape(pages, root, F, Linked) && p in pages && pages[p].InternalNode? && |pages[p].entries| > 0
    ensures var pages' := pages[p := pages[p].(entries := SetKey(pages[p].entries, 0, k))];
            Shape(pages', root, F, Linked) && SameLeaves(pages, F, pages', F)
  {
    var pages' := pages[p := pages[p].(entries := SetKey(pages[p].entries, 0, k))];
    forall q | q in F ensures PageOk(pages', root, F, Linked, q) {
      assert PageOk(pages, root, F, Linked, q);
      if q != root {
        var pq, j := ParentOf(pages, root, F, Linked, q);
        assert IsChild(pages', pq, j, q);
      }
      if pages[q].InternalNode? {
        forall j | 0 <= j < |pages[q].entries| ensures EdgeOk(pages', F, Linked, q, j) {
          assert EdgeOk(pages, F, Linked, q, j);
        }
      }
    }
  }

  /** Internal pages l and r share out their entries anew, the first m staying left. */
  function RebalanceInternal(pages: Pages, p: int, i: nat, l: int, r: int, m: nat): Pages
    requires p in pages && pages[p].InternalNode? && i < |pages[p].entries|
    requires l in pages && pages[l].InternalNode? && r in pages && pages[r].InternalNode? && |pages[r].entries| > 0
    requires m < |pages[l].entries| + |pages[r].entries|
  {
    var full := JoinEntries(pages[l].entries, pages[p].entries[i].key, pages[r].entries);
    var a := Reparent(Reparent(pages, Children(full[..m]), l), Children(full[m..]), r);
    a[l := pages[l].(entries := full[..m])][r := pages[r].(entries := full[m..])]
     [p := pages[p].(entries := SetKey(pages[p].entries, i, full[m].key))]
  }

  lemma RebalanceInternalAt(pages: Pages, root: int, F: Fences, p: int, i: nat, l: int, r: int, m: nat, q: int)
    requires InternalSiblings(pages, root, F, p, i, l, r) && 1 <= m < |pages[l].entries| + |pages[r].entries|
    requires q in F && q != l && q != r && q != p && l != r && l != p && r != p && F.Keys == pages.Keys
    requires l in MergeInternal(pages, p, i, l, r) && MergeInternal(pages, p, i, l, r)[l].InternalNode?
    requires m <= |MergeInternal(pages, p, i, l, r)[l].entries|
    requires CanSplit(MergeInternal(pages, p, i, l, r), root, MergeFence(F, l, r), l, m, r)
    ensures q in SplitInternal(MergeInternal(pages, p, i, l, r), l, m, r)
      && q in RebalanceInternal(pages, p, i, l, r, m)
    ensures SplitInternal(MergeInternal(pages, p, i, l, r), l, m, r)[q] == RebalanceInternal(pages, p, i, l, r, m)[q]
  {
    var a, Fa := MergeInternal(pages, p, i, l, r), MergeFence(F, l, r);
    MergeInternalAt(pages, root, F, p, i, l, r, q);
    MergeInternalAt(pages, root, F, p, i, l, r, l);
    SplitInternalAt(a, root, Fa, l, m, r, q);
    var full := a[l].entries;
    assert PageOk(a, root, Fa, Linked, l);
    if q in Children(full[..m]) {
      var j :| 0 <= j < |full[..m]| && full[..m][j].child == q;
      assert EdgeOk(a, Fa, Linked, l, j);
    } else if q !in Children(full[m..]) {
      forall j | 0 <= j < |pages[r].entries|
        ensures pages[r].entries[j].child in Children(full[..m]) + Children(full[m..])
      {
        var x := |pages[l].entries| + j;
        assert full[x].child == pages[r].entries[j].child;
        assert x < m ==> full[..m][x] == full[x];
        assert x >= m ==> full[m..][x - m] == full[x];
      }
    }
  }

  lemma RebalanceInternalParts(pages: Pages, root: int, F: Fences, p: int, i: nat, l: int, r: int, m: nat)
    requires InternalSiblings(pages, root, F, p, i, l, r) && 1 <= m < |pages[l].entries| + |pages[r].entries|
    requires l != r && l != p && r != p && F.Keys == pages.Keys && r >= 0 && r != root
    ensures l in MergeInternal(pages, p, i, l, r) && MergeInternal(pages, p, i, l, r)[l].InternalNode?
    ensures MergeInternal(pages, p, i, l, r)[l].entries
      == JoinEntries(pages[l].entries, pages[p].entries[i].key, pages[r].entries)
    ensures CanSplit(MergeInternal(pages, p, i, l, r), root, MergeFence(F, l, r), l, m, r)
    ensures var s := SplitInternal(MergeInternal(pages, p, i, l, r), l, m, r);
            p in s && s[p].InternalNode? && r in s && s[p].entries == RemoveEntry(pages[p].entries, i)
              && s[p].parent == pages[p].parent
  {
    MergeInternalShape(pages, root, F, p, i, l, r);
    MergeInternalAt(pages, root, F, p, i, l, r, l);
    MergeInternalAt(pages, root, F, p, i, l, r, p);
    SiblingFacts(pages, root, F, p, i, l, r);
    var a, Fa := MergeInternal(pages, p, i, l, r), MergeFence(F, l, r);
    SplitInternalAt(a, root, Fa, l, m, r, l);
    SplitInternalAt(a, root, Fa, l, m, r, p);
    assert p !in Children(a[l].entries[m..]) by {
      assert PageOk(a, root, Fa, Linked, p) && PageOk(a, root, Fa, Linked, l);
      if p != root { var x, y := ParentOf(a, root, Fa, Linked, p); }
    }
  }

  lemma RebalanceInternalIs(pages: Pages, root: int, F: Fences, p: int, i: nat, l: int, r: int, m: nat)
    requires InternalSiblings(pages, root, F, p, i, l, r) && 1 <= m < |pages[l].entries| + |pages[r].entries|
    requires l != r && l != p && r != p && F.Keys == pages.Keys && r >= 0 && r != root
    ensures l in MergeInternal(pages, p, i, l, r) && MergeInternal(pages, p, i, l, r)[l].InternalNode?
    ensures |MergeInternal(pages, p, i, l, r)[l].entries| == |pages[l].entries| + |pages[r].entries|
    ensures CanSplit(MergeInternal(pages, p, i, l, r), root, MergeFence(F, l, r), l, m, r)
    ensures var s := SplitInternal(MergeInternal(pages, p, i, l, r), l, m, r);
            var k := JoinEntries(pages[l].entries, pages[p].entries[i].key, pages[r].entries)[m].key;
            p in s && s[p].InternalNode? && i - 1 < |s[p].entries| && r in s && s[p].entries[i - 1].child == l &&
            LinkChild(s, p, i - 1, k, r) == RebalanceInternal(pages, p, i, l, r, m)
  {
    RebalanceInternalParts(pages, root, F, p, i, l, r, m);
    SiblingFacts(pages, root, F, p, i, l, r);
    var a, Fa := MergeInternal(pages, p, i, l, r), MergeFence(F, l, r);
    var s, es := SplitInternal(a, l, m, r), pages[p].entries;
    var k := a[l].entries[m].key;
    SplitInternalAt(a, root, Fa, l, m, r, l);
    assert InsertEntry(RemoveEntry(es, i), i - 1, Entry(k, r)) == SetKey(es, i, k);
    var t, u := LinkChild(s, p, i - 1, k, r), RebalanceInternal(pages, p, i, l, r, m);
    assert t.Keys == u.Keys;
    forall q | q in t ensures t[q] == u[q] {
      if q != l && q != r && q != p { RebalanceInternalAt(pages, root, F, p, i, l, r, m, q); }
    }
  }

  /** Redistribution between internal neighbours keeps the shape and leaves every leaf alone. */
  lemma RebalanceInternalShape(pages: Pages, root: int, F: Fences, p: int, i: nat, l: int, r: int, m: nat)
    requires InternalSiblings(pages, root, F, p, i, l, r) && 1 <= m < |pages[l].entries| + |pages[r].entries|
    requires F.Keys == pages.Keys
    ensures var k := JoinEntries(pages[l].entries, pages[p].entries[i].key, pages[r].entries)[m].key;
            var pages', F' := RebalanceInternal(pages, p, i, l, r, m), BorrowFence(F, l, r, k);
            Shape(pages', root, F', Linked) && SameLeaves(pages, F, pages', F')
  {
    SiblingFacts(pages, root, F, p, i, l, r);
    assert PageOk(pages, root, F, Linked, r);
    MergeInternalShape(pages, root, F, p, i, l, r);
    MergeInternalAt(pages, root, F, p, i, l, r, l);
    RebalanceInternalIs(pages, root, F, p, i, l, r, m);
    var a, Fa := MergeInternal(pages, p, i, l, r), MergeFence(F, l, r);
    var k := a[l].entries[m].key;
    SplitInternalShape(a, root, Fa, l, m, r);
    SplitInternalFrame(a, root, Fa, l, m, r);
    BorrowFenceIs(F, l, r, k);
    var s, F' := SplitInternal(a, l, m, r), BorrowFence(F, l, r, k);
    LinkChildShape(s, root, F', Unlinked(l, r), k, p, i - 1);
    LinkSameLeaves(s, F', p, i - 1, k, r);
  }

  lemma LinkSameLeaves(pages: Pages, F: Fences, p: int, i: nat, k: int, r: int)
    requires p in pages && pages[p].InternalNode? && i < |pages[p].entries| && r in pages
    ensures SameLeaves(pages, F, LinkChild(pages, p, i, k, r), F)
  {
  }

  /** The last entry of l moves to the front of r; the parent's separator comes down, l's goes up. */
  function BorrowLast(pages: Pages, p: int, i: nat, l: int, r: int): Pages
    requires p in pages && pages[p].InternalNode? && i < |pages[p].entries|
    requires l in pages && pages[l].InternalNode? && r in pages && pages[r].InternalNode?
    requires |pages[l].entries| > 0 && |pages[r].entries| > 0
    requires pages[l].entries[|pages[l].entries| - 1].child in pages
  {
    var ls, rs, es := pages[l].entries, pages[r].entries, pages[p].entries;
    var last := ls[|ls| - 1];
    var c := last.child;
    pages[l := pages[l].(entries := ls[..|ls| - 1])]
         [r := pages[r].(entries := [Entry(rs[0].key, c), Entry(es[i].key, rs[0].child)] + rs[1..])]
         [p := pages[p].(entries := SetKey(es, i, last.key))]
         [c := pages[c].(parent := r)]
  }

  /** The first entry of r moves to the end of l; the parent's separator comes down, r's goes up. */
  function BorrowFirst(pages: Pages, p: int, i: nat, l: int, r: int): Pages
    requires p in pages && pages[p].InternalNode? && i < |pages[p].entries|
    requires l in pages && pages[l].InternalNode? && r in pages && pages[r].InternalNode?
    requires |pages[r].entries| > 1 && pages[r].entries[0].child in pages
  {
    var ls, rs, es := pages[l].entries, pages[r].entries, pages[p].entries;
    var c := rs[0].child;
    pages[l := pages[l].(entries := ls + [Entry(es[i].key, c)])]
         [r := pages[r].(entries := [Entry(rs[0].key, rs[1].child)] + rs[2..])]
         [p := pages[p].(entries := SetKey(es, i, rs[1].key))]
         [c := pages[c].(parent := l)]
  }

  /** Only the children that change sides get a new parent. */
  lemma RebalanceInternalChild(pages: Pages, root: int, F: Fences, p: int, i: nat, l: int, r: int, m: nat, q: int)
    requires InternalSiblings(pages, root, F, p, i, l, r) && m < |pages[l].entries| + |pages[r].entries|
    requires q in pages && q in F && q != l && q != r && q != p && l != r
    ensures var full := JoinEntries(pages[l].entries, pages[p].entries[i].key, pages[r].entries);
            var q' := RebalanceInternal(pages, p, i, l, r, m)[q];
            && (forall j :: 0 <= j < |full| && full[j].child == q ==> q' == pages[q].(parent := if j < m then l else r))
            && ((forall j :: 0 <= j < |full| ==> full[j].child != q) ==> q' == pages[q])
  {
    var ls, rs := pages[l].entries, pages[r].entries;
    var full := JoinEntries(ls, pages[p].entries[i].key, rs);
    JoinChildrenDistinct(pages, root, F, p, i, l, r);
    forall j | 0 <= j < |full|
      ensures full[j].child in Children(full[..m]) <==> j < m
      ensures full[j].child in Children(full[m..]) <==> j >= m
    {
      if j < m { assert full[..m][j] == full[j]; } else { assert full[m..][j - m] == full[j]; }
    }
    if forall j :: 0 <= j < |full| ==> full[j].child != q {
      assert q !in Children(full[..m]) && q !in Children(full[m..]);
    }
  }

  lemma JoinChildrenDistinct(pages: Pages, root: int, F: Fences, p: int, i: nat, l: int, r: int)
    requires InternalSiblings(pages, root, F, p, i, l, r)
    ensures var full := JoinEntries(pages[l].entries, pages[p].entries[i].key, pages[r].entries);
            && (forall a, b :: 0 <= a < b < |full| ==> full[a].child != full[b].child)
            && (forall a :: 0 <= a < |full| ==>
                  && full[a].child in F && full[a].child in pages
                  && pages[full[a].child].parent == (if a < |pages[l].entries| then l else r)
                  && full[a].child != l && full[a].child != r && full[a].child != p)
  {
    var ls, rs := pages[l].entries, pages[r].entries;
    var full := JoinEntries(ls, pages[p].entries[i].key, rs);
    DistinctChildren(pages, root, F, Linked, l);
    DistinctChildren(pages, root, F, Linked, r);
    SiblingFacts(pages, root, F, p, i, l, r);
    assert PageOk(pages, root, F, Linked, l) && PageOk(pages, root, F, Linked, r);
    forall a | 0 <= a < |full|
      ensures full[a].child in F && full[a].child in pages && F[full[a].child].level + 1 == F[l].level
      ensures pages[full[a].child].parent == (if a < |ls| then l else r)
    {
      if a < |ls| { assert EdgeOk(pages, F, Linked, l, a); } else { assert EdgeOk(pages, F, Linked, r, a - |ls|); }
    }
    forall a, b | 0 <= a < b < |full| ensures full[a].child != full[b].child {
      if a >= |ls| {
        assert full[a].child == rs[a - |ls|].child && full[b].child == rs[b - |ls|].child;
      }
    }
  }

  lemma JoinLast(ls: seq<Entry>, k: int, rs: seq<Entry>)
    requires |ls| > 0 && |rs| > 0
    ensures SetKey(JoinEntries(ls, k, rs)[|ls| - 1..], 0, rs[0].key)
      == [Entry(rs[0].key, ls[|ls| - 1].child), Entry(k, rs[0].child)] + rs[1..]
  {
    assert JoinEntries(ls, k, rs)[|ls| - 1..] == [ls[|ls| - 1]] + SetKey(rs, 0, k);
  }

  lemma BorrowLastIs(pages: Pages, root: int, F: Fences, p: int, i: nat, l: int, r: int)
    requires InternalSiblings(pages, root, F, p, i, l, r) && |pages[l].entries| > 1 && F.Keys == pages.Keys
    ensures pages[l].entries[|pages[l].entries| - 1].child in pages
    ensures var u := RebalanceInternal(pages, p, i, l, r, |pages[l].entries| - 1);
            && r in u && u[r].InternalNode? && |u[r].entries| > 0
            && BorrowLast(pages, p, i, l, r)
               == u[r := u[r].(entries := SetKey(u[r].entries, 0, pages[r].entries[0].key))]
  {
    var ls, rs, es := pages[l].entries, pages[r].entries, pages[p].entries;
    var full, m := JoinEntries(ls, es[i].key, rs), |ls| - 1;
    SiblingFacts(pages, root, F, p, i, l, r);
    JoinChildrenDistinct(pages, root, F, p, i, l, r);
    assert full[..m] == ls[..m] && full[m] == ls[m];
    var c := ls[m].child;
    assert full[m].child == c;
    var t, u := BorrowLast(pages, p, i, l, r), RebalanceInternal(pages, p, i, l, r, m);
    var u' := u[r := u[r].(entries := SetKey(u[r].entries, 0, rs[0].key))];
    JoinLast(ls, es[i].key, rs);
    assert t[r].entries == u'[r].entries;
    assert t.Keys == u'.Keys && t[l] == u'[l] && t[r] == u'[r] && t[p] == u'[p];
    forall q | q in pages && q != l && q != r && q != p ensures t[q] == u'[q] {
      RebalanceInternalChild(pages, root, F, p, i, l, r, m, q);
    }
  }

  lemma BorrowFirstIs(pages: Pages, root: int, F: Fences, p: int, i: nat, l: int, r: int)
    requires InternalSiblings(pages, root, F, p, i, l, r) && |pages[r].entries| > 1 && F.Keys == pages.Keys
    ensures pages[r].entries[0].child in pages
    ensures var u := RebalanceInternal(pages, p, i, l, r, |pages[l].entries| + 1);
            && r in u && u[r].InternalNode? && |u[r].entries| > 0
            && BorrowFirst(pages, p, i, l, r)
               == u[r := u[r].(entries := SetKey(u[r].entries, 0, pages[r].entries[0].key))]
  {
    var ls, rs, es := pages[l].entries, pages[r].entries, pages[p].entries;
    var full, m := JoinEntries(ls, es[i].key, rs), |ls| + 1;
    SiblingFacts(pages, root, F, p, i, l, r);
    JoinChildrenDistinct(pages, root, F, p, i, l, r);
    var c := rs[0].child;
    JoinFirst(ls, es[i].key, rs);
    var t, u := BorrowFirst(pages, p, i, l, r), RebalanceInternal(pages, p, i, l, r, m);
    var u' := u[r := u[r].(entries := SetKey(u[r].entries, 0, rs[0].key))];
    assert t.Keys == u'.Keys;
    assert t[l] == u'[l] && t[r] == u'[r] && t[p] == u'[p];
    forall q | q in pages && q != l && q != r && q != p ensures t[q] == u'[q] {
      RebalanceInternalChild(pages, root, F, p, i, l, r, m, q);
    }
  }

  lemma JoinFirst(ls: seq<Entry>, k: int, rs: seq<Entry>)
    requires |rs| > 1
    ensures var full, m := JoinEntries(ls, k, rs), |ls| + 1;
            && full[..m] == ls + [Entry(k, rs[0].child)] && full[m..] == rs[1..] && full[m] == rs[1]
            && full[m - 1].child == rs[0].child && |full| == |ls| + |rs|
            && SetKey(full[m..], 0, rs[0].key) == [Entry(rs[0].key, rs[1].child)] + rs[2..]
  {
  }
}
