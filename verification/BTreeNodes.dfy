/** The contents of B+ tree pages as values, and what each page operation does to them. */
module BTreeNodes {


  /** A key and its record id in a leaf page. */
  datatype Item = Item(key: int, val: int)

  /** A separator and a child page id in an internal page; the key of entry 0 means nothing. */
  datatype Entry = Entry(key: int, child: int)

  datatype Node =
    | LeafNode(parent: int, next: int, items: seq<Item>)
    | InternalNode(parent: int, entries: seq<Entry>)

  // ----- leaf contents ---------------------------------------------------

  ghost predicate SortedItems(items: seq<Item>) {
    forall i, j :: 0 <= i < j < |items| ==> items[i].key < items[j].key
  }

  ghost predicate HasKey(items: seq<Item>, k: int) {
    exists i :: 0 <= i < |items| && items[i].key == k
  }

  /** The first position whose key is not below k. */
  function KeyIndex(items: seq<Item>, k: int): (r: nat)
    ensures r <= |items|
    ensures forall i :: 0 <= i < r ==> items[i].key < k
    ensures r < |items| ==> k <= items[r].key
  {
    if items == [] || k <= items[0].key then 0 else
      var r := KeyIndex(items[1..], k);
      assert forall i :: 1 <= i < r + 1 ==> items[i] == items[1..][i - 1];
      r + 1
  }

  function InsertItem(items: seq<Item>, k: int, v: int): seq<Item> {
    var i := KeyIndex(items, k);
    items[..i] + [Item(k, v)] + items[i..]
  }

  function RemoveItem(items: seq<Item>, k: int): seq<Item> {
    var i := KeyIndex(items, k);
    if i < |items| && items[i].key == k then items[..i] + items[i + 1..] else items
  }

  lemma KeyIndexUnique(items: seq<Item>, k: int, i: nat)
    requires SortedItems(items) && i <= |items|
    requires i > 0 ==> items[i - 1].key < k
    requires i < |items| ==> k <= items[i].key
    ensures KeyIndex(items, k) == i
  {
    var r := KeyIndex(items, k);
  }

  /** Inserting a new key keeps the order and adds exactly that pair. */
  lemma InsertItemSorted(items: seq<Item>, k: int, v: int)
    requires SortedItems(items) && !HasKey(items, k)
    ensures SortedItems(InsertItem(items, k, v))
    ensures |InsertItem(items, k, v)| == |items| + 1
    ensures forall it :: it in InsertItem(items, k, v) <==> it == Item(k, v) || it in items
  {
    var i := KeyIndex(items, k);
    var r := InsertItem(items, k, v);
    assert i < |items| ==> k < items[i].key;
    assert forall j :: 0 <= j < i ==> r[j] == items[j];
    assert forall j :: i < j < |r| ==> r[j] == items[j - 1];
    forall a, b | 0 <= a < b < |r| ensures r[a].key < r[b].key {
      if b > i && i < |items| { assert items[i].key <= items[b - 1].key; }
    }
    forall it | it in items ensures it in r {
      var j :| 0 <= j < |items| && items[j] == it;
      assert r[if j < i then j else j + 1] == it;
    }
    assert r[i] == Item(k, v);
  }

  /** The pairs left of and right of position i. */
  function DropAt(items: seq<Item>, i: nat): (r: seq<Item>)
    requires i < |items|
    ensures |r| == |items| - 1
    ensures forall a :: 0 <= a < i ==> r[a] == items[a]
    ensures forall a :: i <= a < |r| ==> r[a] == items[a + 1]
  {
    items[..i] + items[i + 1..]
  }

  lemma DropAtSorted(items: seq<Item>, i: nat)
    requires SortedItems(items) && i < |items|
    ensures SortedItems(DropAt(items, i))
  {
  }

  lemma DropAtMembers(items: seq<Item>, i: nat, it: Item)
    requires SortedItems(items) && i < |items|
    ensures it in DropAt(items, i) <==> it in items && it.key != items[i].key
  {
    var r := DropAt(items, i);
    if it in items && it.key != items[i].key {
      var a :| 0 <= a < |items| && items[a] == it;
      assert r[if a < i then a else a - 1] == it;
    }
    if it in r {
      var a :| 0 <= a < |r| && r[a] == it;
      assert items[if a < i then a else a + 1] == it;
    }
  }

  /** Removing a key keeps the order and drops exactly the pair with that key. */
  lemma RemoveItemSorted(items: seq<Item>, k: int)
    requires SortedItems(items)
    ensures SortedItems(RemoveItem(items, k))
    ensures |RemoveItem(items, k)| == |items| - (if HasKey(items, k) then 1 else 0)
    ensures forall it :: it in RemoveItem(items, k) <==> it in items && it.key != k
  {
    var i := KeyIndex(items, k);
    if HasKey(items, k) {
      var j :| 0 <= j < |items| && items[j].key == k;
      KeyIndexUnique(items, k, j);
      DropAtSorted(items, i);
      assert RemoveItem(items, k) == DropAt(items, i);
      forall it ensures it in DropAt(items, i) <==> it in items && it.key != k { DropAtMembers(items, i, it); }
    }
  }

  /** A key not found at its place is nowhere. */
  lemma AbsentKey(items: seq<Item>, k: int)
    requires SortedItems(items) && !(KeyIndex(items, k) < |items| && items[KeyIndex(items, k)].key == k)
    ensures forall j :: 0 <= j < |items| ==> items[j].key != k
  {
    var i := KeyIndex(items, k);
    forall j | i <= j < |items| ensures items[j].key > k {
      assert items[i].key <= items[j].key;
    }
  }

  /** Inserting into the proper half of a split page equals splitting after the insertion. */
  lemma InsertItemConcat(a: seq<Item>, b: seq<Item>, k: int, v: int)
    requires SortedItems(a + b) && |b| > 0 && !HasKey(a + b, k)
    ensures InsertItem(a + b, k, v) ==
            if k < b[0].key then InsertItem(a, k, v) + b else a + InsertItem(b, k, v)
    ensures k >= b[0].key ==> InsertItem(b, k, v)[0] == b[0]
  {
    assert (a + b)[|a|] == b[0];
    if k < b[0].key { InsertItemLeft(a, b, k, v); } else { InsertItemRight(a, b, k, v); }
  }

  lemma ConcatLeft<T>(a: seq<T>, b: seq<T>, i: nat)
    requires i <= |a|
    ensures (a + b)[..i] == a[..i] && (a + b)[i..] == a[i..] + b
  {
  }

  lemma ConcatRight<T>(a: seq<T>, b: seq<T>, i: nat)
    requires i <= |b|
    ensures (a + b)[..|a| + i] == a + b[..i] && (a + b)[|a| + i..] == b[i..]
  {
  }

  lemma InsertItemLeft(a: seq<Item>, b: seq<Item>, k: int, v: int)
    requires SortedItems(a + b) && |b| > 0 && k < b[0].key
    ensures InsertItem(a + b, k, v) == InsertItem(a, k, v) + b
  {
    var ab, i := a + b, KeyIndex(a, k);
    assert i > 0 ==> ab[i - 1] == a[i - 1];
    assert ab[i] == if i < |a| then a[i] else b[0];
    KeyIndexUnique(ab, k, i);
    ConcatLeft(a, b, i);
  }

  lemma InsertItemRight(a: seq<Item>, b: seq<Item>, k: int, v: int)
    requires SortedItems(a + b) && |b| > 0 && k > b[0].key
    ensures InsertItem(a + b, k, v) == a + InsertItem(b, k, v)
    ensures InsertItem(b, k, v)[0] == b[0]
  {
    var ab, i := a + b, KeyIndex(b, k);
    assert i > 0;
    assert ab[|a| + i - 1] == b[i - 1];
    assert i < |b| ==> ab[|a| + i] == b[i];
    KeyIndexUnique(ab, k, |a| + i);
    ConcatRight(a, b, i);
  }

  // ----- internal contents -----------------------------------------------

  ghost predicate SortedEntries(es: seq<Entry>) {
    forall i, j :: 1 <= i < j < |es| ==> es[i].key < es[j].key
  }

  /** The child to follow for k: the last entry whose separator is not above k. */
  function ChildIndex(es: seq<Entry>, k: int): (r: nat)
    requires |es| > 0
    ensures r < |es|
    ensures r > 0 ==> es[r].key <= k
    ensures forall i :: r < i < |es| ==> k < es[i].key
  {
    if |es| == 1 || es[|es| - 1].key <= k then |es| - 1 else
      var r := ChildIndex(es[..|es| - 1], k);
      assert forall i :: r < i < |es| - 1 ==> es[i] == es[..|es| - 1][i];
      r
  }

  /** The position of a child page id, or the size when it is absent. */
  function ValueIndex(es: seq<Entry>, c: int): (r: nat)
    ensures r <= |es|
    ensures r < |es| ==> es[r].child == c
    ensures forall i :: 0 <= i < r ==> es[i].child != c
  {
    if es == [] || es[0].child == c then 0 else
      var r := ValueIndex(es[1..], c);
      assert forall i :: 1 <= i < r + 1 ==> es[i] == es[1..][i - 1];
      r + 1
  }

  /** A new separator and child right after position i. */
  function InsertEntry(es: seq<Entry>, i: nat, e: Entry): (r: seq<Entry>)
    requires i < |es|
    ensures |r| == |es| + 1
    ensures forall j :: 0 <= j <= i ==> r[j] == es[j]
    ensures r[i + 1] == e
    ensures forall j :: i + 1 < j < |r| ==> r[j] == es[j - 1]
  {
    es[..i + 1] + [e] + es[i + 1..]
  }

  function RemoveEntry(es: seq<Entry>, i: nat): (r: seq<Entry>)
    requires i < |es|
    ensures |r| == |es| - 1
    ensures forall j :: 0 <= j < i ==> r[j] == es[j]
    ensures forall j :: i <= j < |r| ==> r[j] == es[j + 1]
  {
    es[..i] + es[i + 1..]
  }

  function SetKey(es: seq<Entry>, i: nat, k: int): (r: seq<Entry>)
    requires i < |es|
    ensures |r| == |es| && r[i] == Entry(k, es[i].child)
    ensures forall j :: 0 <= j < |es| && j != i ==> r[j] == es[j]
  {
    es[i := Entry(k, es[i].child)]
  }
}
