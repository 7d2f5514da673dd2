/** Leaf and internal pages as the fixed arrays they are on disk. Each in-place operation is proved
    to be the operation on the page contents that the tree uses. */
module BTreePageArrays {
  import opened BTreeNodes

  class LeafPage {
    const slots: array<Item>
    var size: nat
    var next: int

    ghost predicate Valid()
      reads this
    {
      size <= slots.Length
    }

    ghost function Items(): seq<Item>
      requires Valid()
      reads this, slots
    {
      slots[..size]
    }

    /** Binary search for the place of a new key. */
    method Place(key: int) returns (at: nat)
      requires Valid() && SortedItems(Items()) && !HasKey(Items(), key)
      ensures at == KeyIndex(Items(), key)
    {
      ghost var items := Items();
      at := size;
      if size == 0 || key > slots[size - 1].key {
        at := size;
      } else if key < slots[0].key {
        at := 0;
      } else {
        assert items[0].key != key && items[size - 1].key != key;
        var low, high := 0, size - 1;
        while low < high && low + 1 != high
          invariant 0 <= low < high < size && slots[low].key < key < slots[high].key
        {
          var mid := low + (high - low) / 2;
          assert items[mid] == slots[mid];
          if key < slots[mid].key {
            high := mid;
          } else if key > slots[mid].key {
            low := mid;
          } else {
            assert false;
          }
        }
        at := high;
      }
      KeyIndexUnique(items, key, at);
    }

    /** Shifts everything from `at` on by one and puts the pair there. */
    method OpenGap(at: nat, item: Item)
      requires Valid() && at <= size < slots.Length
      modifies this`size, slots
      ensures Valid() && Items() == old(Items())[..at] + [item] + old(Items())[at..]
    {
      forall j | at < j <= size {
        slots[j] := slots[j - 1];
      }
      slots[at] := item;
      size := size + 1;
    }

    method Insert(key: int, value: int) returns (newSize: nat)
      requires Valid() && SortedItems(Items()) && !HasKey(Items(), key) && size < slots.Length
      modifies this`size, slots
      ensures Valid() && Items() == InsertItem(old(Items()), key, value) && newSize == size
    {
      var at := Place(key);
      OpenGap(at, Item(key, value));
      newSize := size;
    }

    /** The binary search shared by lookup and removal. */
    method Search(key: int) returns (found: bool, at: nat)
      requires Valid() && SortedItems(Items())
      ensures found ==> at < size && slots[at].key == key
      ensures !found ==> forall i :: 0 <= i < size ==> slots[i].key != key
    {
      at := 0;
      var low, high := 0, size - 1;
      while low <= high
        invariant 0 <= low <= high + 1 <= size
        invariant forall i :: 0 <= i < low ==> slots[i].key < key
        invariant forall i :: high < i < size ==> key < slots[i].key
      {
        var mid := low + (high - low) / 2;
        assert Items()[mid] == slots[mid];
        if key > slots[mid].key {
          low := mid + 1;
        } else if key < slots[mid].key {
          high := mid - 1;
        } else {
          return true, mid;
        }
      }
      found := false;
    }

    method Lookup(key: int) returns (found: bool, value: int)
      requires Valid() && SortedItems(Items())
      ensures found <==> HasKey(Items(), key)
      ensures found ==> Item(key, value) in Items()
    {
      if size == 0 || key < slots[0].key || key > slots[size - 1].key {
        assert forall i :: 0 <= i < size ==> Items()[0].key <= Items()[i].key <= Items()[size - 1].key;
        return false, 0;
      }
      var at;
      found, at := Search(key);
      value := if found then slots[at].val else 0;
      assert found ==> Items()[at] == Item(key, value);
      assert !found ==> forall i :: 0 <= i < size ==> Items()[i] == slots[i];
    }

    method CloseGap(at: nat)
      requires Valid() && at < size
      modifies this`size, slots
      ensures Valid() && Items() == old(Items())[..at] + old(Items())[at + 1..]
    {
      forall j | at <= j < size - 1 {
        slots[j] := slots[j + 1];
      }
      size := size - 1;
    }

    method RemoveAndDeleteRecord(key: int) returns (newSize: nat)
      requires Valid() && SortedItems(Items())
      modifies this`size, slots
      ensures Valid() && Items() == RemoveItem(old(Items()), key) && newSize == size
    {
      if size == 0 || key < slots[0].key || key > slots[size - 1].key {
        return size;
      }
      ghost var items := Items();
      var found, at := Search(key);
      if found {
        KeyIndexUnique(items, key, at);
        CloseGap(at);
      } else {
        assert forall i :: 0 <= i < |items| ==> items[i] == slots[i];
      }
      newSize := size;
    }

    /** The upper half of the pairs moves to the empty page `recipient`. */
    method MoveHalfTo(recipient: LeafPage)
      requires Valid() && recipient.Valid() && recipient != this && recipient.slots != slots
      requires size > 0 && recipient.size == 0 && recipient.slots.Length == slots.Length
      modifies this`size, recipient`size, recipient.slots
      ensures Valid() && recipient.Valid() && recipient.size == old(size) / 2
      ensures Items() + recipient.Items() == old(Items())
    {
      var n := size / 2;
      for i := 0 to n
        invariant recipient.size == 0 && size == old(size)
        invariant forall j :: 0 <= j < i ==> recipient.slots[j] == slots[size - n + j]
      {
        recipient.slots[i] := slots[size - n + i];
      }
      recipient.size := n;
      size := size - n;
      assert slots[..size] + recipient.slots[..n] == old(slots[..size]);
    }

    /** All pairs move to the end of the left neighbour, which inherits the chain successor. */
    method MoveAllTo(recipient: LeafPage)
      requires Valid() && recipient.Valid() && recipient != this && recipient.slots != slots
      requires recipient.size + size <= recipient.slots.Length
      modifies recipient`size, recipient`next, recipient.slots
      ensures recipient.Valid() && recipient.Items() == old(recipient.Items()) + Items() && recipient.next == next
    {
      ghost var had := recipient.Items();
      var start := recipient.size;
      for i := 0 to size
        invariant recipient.size == start && slots[..size] == old(slots[..size])
        invariant recipient.slots[..start + i] == had + slots[..i]
      {
        recipient.slots[start + i] := slots[i];
      }
      recipient.size := start + size;
      recipient.next := next;
    }

    method MoveFirstToEndOf(recipient: LeafPage, parent: InternalPage, pageId: int) returns (pair: Item)
      requires Valid() && recipient.Valid() && recipient != this && recipient.slots != slots
      requires size > 0 && recipient.size < recipient.slots.Length && parent.Valid()
        && ValueIndex(parent.Entries(), pageId) < parent.size
      modifies this`size, slots, recipient`size, recipient.slots, parent.slots
      ensures Valid() && recipient.Valid() && parent.Valid() && pair == old(Items())[0]
      ensures Items() == old(Items())[1..] && recipient.Items() == old(recipient.Items()) + [pair]
      ensures parent.Entries() == SetKey(old(parent.Entries()), ValueIndex(old(parent.Entries()), pageId), pair.key)
    {
      var index := parent.IndexOf(pageId);
      pair := GiveFirst(recipient);
      parent.SetKeyAt(index, pair.key);
    }

    method GiveFirst(recipient: LeafPage) returns (pair: Item)
      requires Valid() && recipient.Valid() && recipient != this && recipient.slots != slots
      requires size > 0 && recipient.size < recipient.slots.Length
      modifies this`size, slots, recipient`size, recipient.slots
      ensures Valid() && recipient.Valid() && pair == old(Items())[0]
      ensures Items() == old(Items())[1..] && recipient.Items() == old(recipient.Items()) + [pair]
    {
      pair := slots[0];
      size := size - 1;
      forall j | 0 <= j < size {
        slots[j] := slots[j + 1];
      }
      recipient.slots[recipient.size] := pair;
      recipient.size := recipient.size + 1;
    }

    method MoveLastToFrontOf(recipient: LeafPage, parent: InternalPage, parentIndex: nat) returns (pair: Item)
      requires Valid() && recipient.Valid() && recipient != this && recipient.slots != slots
      requires size > 0 && recipient.size < recipient.slots.Length && parent.Valid() && parentIndex < parent.size
      modifies this`size, recipient`size, recipient.slots, parent.slots
      ensures Valid() && recipient.Valid() && parent.Valid() && pair == old(Items())[old(size) - 1]
      ensures Items() == old(Items())[..old(size) - 1] && recipient.Items() == [pair] + old(recipient.Items())
      ensures parent.Entries() == SetKey(old(parent.Entries()), parentIndex, pair.key)
    {
      pair := GiveLast(recipient);
      parent.SetKeyAt(parentIndex, pair.key);
    }

    method GiveLast(recipient: LeafPage) returns (pair: Item)
      requires Valid() && recipient.Valid() && recipient != this && recipient.slots != slots
      requires size > 0 && recipient.size < recipient.slots.Length
      modifies this`size, recipient`size, recipient.slots
      ensures Valid() && recipient.Valid() && pair == old(Items())[old(size) - 1]
      ensures Items() == old(Items())[..old(size) - 1] && recipient.Items() == [pair] + old(recipient.Items())
    {
      pair := slots[size - 1];
      size := size - 1;
      forall j | 1 <= j <= recipient.size {
        recipient.slots[j] := recipient.slots[j - 1];
      }
      recipient.slots[0] := pair;
      recipient.size := recipient.size + 1;
    }
  }

  class InternalPage {
    const slots: array<Entry>
    var size: nat

    ghost predicate Valid()
      reads this
    {
      size <= slots.Length
    }

    ghost function Entries(): seq<Entry>
      requires Valid()
      reads this, slots
    {
      slots[..size]
    }

    /** The position of a child, searched from the front. */
    method IndexOf(child: int) returns (i: nat)
      requires Valid()
      ensures i == ValueIndex(Entries(), child)
    {
      i := 0;
      while i < size && slots[i].child != child
        invariant i <= size && forall j :: 0 <= j < i ==> slots[j].child != child
      {
        i := i + 1;
      }
    }

    method SetKeyAt(i: nat, key: int)
      requires Valid() && i < size
      modifies slots
      ensures Valid() && Entries() == SetKey(old(Entries()), i, key)
    {
      slots[i] := slots[i].(key := key);
    }

    /** Binary search for the child responsible for a key. */
    method Lookup(key: int) returns (child: int)
      requires Valid() && SortedEntries(Entries()) && size > 1
      ensures child == Entries()[ChildIndex(Entries(), key)].child
    {
      ghost var es := Entries();
      if key < slots[1].key {
        ChildIndexUnique(es, key, 0);
        return slots[0].child;
      } else if key >= slots[size - 1].key {
        ChildIndexUnique(es, key, size - 1);
        return slots[size - 1].child;
      }
      var low, high := 1, size - 1;
      while low < high && low + 1 != high
        invariant 1 <= low < high < size && slots[low].key <= key < slots[high].key
      {
        var mid := low + (high - low) / 2;
        if key < slots[mid].key {
          high := mid;
        } else if key > slots[mid].key {
          low := mid;
        } else {
          ChildIndexUnique(es, key, mid);
          return slots[mid].child;
        }
      }
      ChildIndexUnique(es, key, low);
      return slots[low].child;
    }

    /** Shifts entries up from the end until the old child is met, and puts the new one after it. */
    method InsertNodeAfter(oldChild: int, key: int, newChild: int) returns (newSize: nat)
      requires Valid() && size < slots.Length && ValueIndex(Entries(), oldChild) < size
      requires forall i, j :: 0 <= i < j < size ==> slots[i].child != slots[j].child
      modifies this`size, slots
      ensures Valid() && newSize == size
      ensures Entries() == InsertEntry(old(Entries()), ValueIndex(old(Entries()), oldChild), Entry(key, newChild))
    {
      ghost var es := Entries();
      ghost var at := ValueIndex(es, oldChild);
      var i := size;
      while slots[i - 1].child != oldChild
        invariant at < i <= size && size == old(size)
        invariant forall j :: 0 <= j < i ==> slots[j] == es[j]
        invariant forall j :: i < j <= size ==> slots[j] == es[j - 1]
        decreases i
      {
        slots[i] := slots[i - 1];
        i := i - 1;
      }
      assert i == at + 1;
      slots[i] := Entry(key, newChild);
      size := size + 1;
      newSize := size;
      assert slots[..size] == InsertEntry(es, at, Entry(key, newChild));
    }

    method Remove(index: nat)
      requires Valid() && index < size
      modifies this`size, slots
      ensures Valid() && Entries() == RemoveEntry(old(Entries()), index)
    {
      ghost var es := Entries();
      for i := index to size - 1
        invariant size == old(size)
        invariant forall j :: 0 <= j < index ==> slots[j] == es[j]
        invariant forall j :: index <= j < i ==> slots[j] == es[j + 1]
        invariant forall j :: i <= j < size ==> slots[j] == es[j]
      {
        slots[i] := slots[i + 1];
      }
      size := size - 1;
      assert slots[..size] == RemoveEntry(es, index);
    }

    /** The larger upper half moves to a new page; the rest stays. */
    method MoveHalfTo(recipient: InternalPage)
      requires Valid() && recipient.Valid() && recipient != this && recipient.slots != slots
      requires recipient.size == 1 && recipient.slots.Length == slots.Length && size > 0
      modifies this`size, recipient`size, recipient.slots
      ensures Valid() && recipient.Valid() && recipient.size == (old(size) + 1) / 2
      ensures Entries() + recipient.Entries() == old(Entries())
    {
      var half := (size + 1) / 2;
      for i := 0 to half
        invariant recipient.size == 1 && size == old(size)
        invariant forall j :: 0 <= j < i ==> recipient.slots[j] == slots[size - half + j]
      {
        recipient.slots[i] := slots[size - half + i];
      }
      recipient.size := half;
      size := size - half;
      assert slots[..size] + recipient.slots[..half] == old(slots[..size]);
    }

    /** Everything goes to the end of the left neighbour, the parent's separator becoming the first key. */
    method MoveAllTo(recipient: InternalPage, separator: int)
      requires Valid() && recipient.Valid() && recipient != this && recipient.slots != slots
      requires size > 0 && recipient.size + size <= recipient.slots.Length
      modifies slots, recipient`size, recipient.slots
      ensures recipient.Valid() && recipient.Entries() == old(recipient.Entries())
        + SetKey(old(Entries()), 0, separator)
    {
      ghost var had, es := recipient.Entries(), SetKey(Entries(), 0, separator);
      slots[0] := slots[0].(key := separator);
      assert slots[..size] == es;
      var start := recipient.size;
      for i := 0 to size
        invariant recipient.size == start && slots[..size] == es
        invariant recipient.slots[..start + i] == had + es[..i]
      {
        assert slots[i] == es[i];
        recipient.slots[start + i] := slots[i];
      }
      recipient.size := start + size;
    }

    /** The first child goes to the end of the left neighbour under the parent's separator; the key that followed
      * goes up. */
    method MoveFirstToEndOf(recipient: InternalPage, separator: int) returns (up: int)
      requires Valid() && recipient.Valid() && recipient != this && recipient.slots != slots
      requires size > 1 && recipient.size < recipient.slots.Length
      modifies this`size, slots, recipient`size, recipient.slots
      ensures Valid() && recipient.Valid() && up == old(slots[1].key)
      ensures Entries() == [Entry(old(slots[0].key), old(slots[1].child))] + old(Entries())[2..]
      ensures recipient.Entries() == old(recipient.Entries()) + [Entry(separator, old(slots[0].child))]
    {
      ghost var es := Entries();
      var pair := Entry(slots[1].key, slots[0].child);
      slots[0] := slots[0].(child := slots[1].child);
      ghost var changed := Entries();
      assert changed == es[0 := Entry(es[0].key, es[1].child)];
      Remove(1);
      assert Entries() == [Entry(es[0].key, es[1].child)] + es[2..];
      recipient.slots[recipient.size] := Entry(separator, pair.child);
      recipient.size := recipient.size + 1;
      up := pair.key;
    }

    /** The last child goes to the front of the right neighbour; the parent's separator comes down and the last key
      * goes up. */
    method MoveLastToFrontOf(recipient: InternalPage, separator: int) returns (up: int)
      requires Valid() && recipient.Valid() && recipient != this && recipient.slots != slots
      requires size > 1 && 0 < recipient.size < recipient.slots.Length
      requires forall i, j :: 0 <= i < j < recipient.size ==> recipient.slots[i].child != recipient.slots[j].child
      modifies this`size, recipient`size, recipient.slots
      ensures Valid() && recipient.Valid() && up == old(slots[size - 1].key)
        && Entries() == old(Entries())[..old(size) - 1]
      ensures var rs := old(recipient.Entries());
        recipient.Entries() == [Entry(rs[0].key, old(slots[size - 1].child)), Entry(separator, rs[0].child)] + rs[1..]
    {
      size := size - 1;
      var pair := slots[size];
      ghost var rs := recipient.Entries();
      var first := recipient.slots[0].child;
      assert ValueIndex(rs, first) == 0;
      var _ := recipient.InsertNodeAfter(first, separator, first);
      assert recipient.Entries() == [rs[0], Entry(separator, rs[0].child)] + rs[1..];
      recipient.slots[0] := recipient.slots[0].(child := pair.child);
      up := pair.key;
    }
  }

  lemma ChildIndexUnique(es: seq<Entry>, k: int, i: nat)
    requires SortedEntries(es) && i < |es|
    requires i > 0 ==> es[i].key <= k
    requires i + 1 < |es| ==> k < es[i + 1].key
    ensures ChildIndex(es, k) == i
  {
    var r := ChildIndex(es, k);
  }
}
