/** The LRU replacer: a doubly linked list with a dummy head, plus a table from value to node. */
module LruReplacer {

  /** The list without v. */
  function Without<T(==, !new)>(s: seq<T>, v: T): (r: seq<T>)
    ensures v !in r && (v !in s ==> r == s)
    ensures forall x :: x in r <==> x in s && x != v
  {
    if s == [] then [] else
      assert s == [s[0]] + s[1..];
      if s[0] == v then Without(s[1..], v) else [s[0]] + Without(s[1..], v)
  }

  ghost predicate NoDuplicates<T>(s: seq<T>) {
    forall i, j :: 0 <= i < j < |s| ==> s[i] != s[j]
  }

  lemma {:induction false} WithoutAt<T(!new)>(s: seq<T>, i: nat)
    requires NoDuplicates(s) && i < |s|
    ensures Without(s, s[i]) == s[..i] + s[i + 1..]
  {
    var t := s[1..];
    assert s[i] in t ==> i > 0;
    if i == 0 {
      assert s[..0] + t == t;
    } else {
      assert t[i - 1] == s[i];
      WithoutAt(t, i - 1);
      HeadSplit(s, i);
    }
  }

  lemma HeadSplit<T>(s: seq<T>, i: nat)
    requires 0 < i < |s|
    ensures s[..i] + s[i + 1..] == [s[0]] + (s[1..][..i - 1] + s[1..][i..])
  {
  }

  lemma {:induction false} DistinctCount<T(!new)>(s: seq<T>)
    requires NoDuplicates(s)
    ensures |set v | v in s| == |s|
  {
    if s != [] {
      DistinctCount(s[1..]);
      assert (set v | v in s) == (set v | v in s[1..]) + {s[0]};
    }
  }

  class Node<T> {
    const data: T
    var pre: Node?<T>
    var next: Node?<T>

    constructor (data: T, pre: Node?<T>)
      ensures this.data == data && this.pre == pre && next == null
    {
      this.data, this.pre, next := data, pre, null;
    }
  }

  ghost predicate LinkedAt<T>(ns: seq<Node<T>>, i: int)
    requires 0 <= i < |ns| - 1
    reads ns
  {
    ns[i].next == ns[i + 1] && ns[i + 1].pre == ns[i]
  }

  /** Forward and backward links agree all along. */
  ghost predicate Linked<T>(ns: seq<Node<T>>)
    reads ns
  {
    forall i {:trigger LinkedAt(ns, i)} :: 0 <= i < |ns| - 1 ==> LinkedAt(ns, i)
  }

  ghost function Data<T>(ns: seq<Node<T>>): (r: seq<T>)
    ensures |r| == |ns| && forall i :: 0 <= i < |ns| ==> r[i] == ns[i].data
  {
    seq(|ns|, i requires 0 <= i < |ns| => ns[i].data)
  }

  ghost predicate MemberAt<T>(ns: seq<Node<T>>, t: map<T, Node<T>>, i: int)
    requires 0 <= i < |ns|
  {
    ns[i].data in t && t[ns[i].data] == ns[i]
  }

  ghost predicate ListedAs<T>(ns: seq<Node<T>>, t: map<T, Node<T>>, v: T)
    requires v in t
  {
    exists i :: 0 < i < |ns| && ns[i] == t[v] && ns[i].data == v
  }

  /** The table leads from every member's value to its node, and nowhere else. The first node is the dummy head. */
  ghost predicate TableFor<T(!new)>(ns: seq<Node<T>>, t: map<T, Node<T>>) {
    && |ns| > 0
    && (forall i {:trigger MemberAt(ns, t, i)} :: 0 < i < |ns| ==> MemberAt(ns, t, i))
    && (forall v {:trigger ListedAs(ns, t, v)} :: v in t ==> ListedAs(ns, t, v))
  }

  /** The members' values, dummy head left out. */
  ghost function Members<T>(ns: seq<Node<T>>): (r: seq<T>)
    requires |ns| > 0
  {
    Data(ns)[1..]
  }

  lemma MembersFacts<T(!new)>(ns: seq<Node<T>>, t: map<T, Node<T>>)
    requires TableFor(ns, t) && NoDuplicates(ns)
    ensures NoDuplicates(Members(ns))
    ensures forall v :: v in t <==> v in Members(ns)
  {
    var s := Members(ns);
    forall i, j | 0 <= i < j < |s| ensures s[i] != s[j] {
      assert MemberAt(ns, t, i + 1) && MemberAt(ns, t, j + 1);
    }
    forall v | v in t ensures v in s {
      assert ListedAs(ns, t, v);
      var i :| 0 < i < |ns| && ns[i] == t[v] && ns[i].data == v;
      assert s[i - 1] == v;
    }
    forall v | v in s ensures v in t {
      var i :| 0 <= i < |s| && s[i] == v;
      assert MemberAt(ns, t, i + 1);
    }
  }

  ghost function Drop<T>(ns: seq<Node<T>>, i: nat): (r: seq<Node<T>>)
    requires i < |ns|
  {
    ns[..i] + ns[i + 1..]
  }

  lemma DropTable<T(!new)>(ns: seq<Node<T>>, t: map<T, Node<T>>, i: nat)
    requires TableFor(ns, t) && NoDuplicates(ns) && 0 < i < |ns|
    ensures TableFor(Drop(ns, i), t - {ns[i].data})
  {
    var r, u := Drop(ns, i), t - {ns[i].data};
    assert MemberAt(ns, t, i);
    forall v | v in u ensures ListedAs(r, u, v) {
      assert ListedAs(ns, t, v);
      var j :| 0 < j < |ns| && ns[j] == t[v] && ns[j].data == v;
      assert r[if j < i then j else j - 1] == u[v];
    }
    forall j | 0 < j < |r| ensures MemberAt(r, u, j) {
      var x := if j < i then j else j + 1;
      assert r[j] == ns[x] && MemberAt(ns, t, x);
    }
  }

  lemma DropMembers<T(!new)>(ns: seq<Node<T>>, t: map<T, Node<T>>, i: nat)
    requires TableFor(ns, t) && NoDuplicates(ns) && 0 < i < |ns|
    ensures Members(Drop(ns, i)) == Without(Members(ns), ns[i].data)
  {
    MembersFacts(ns, t);
    WithoutAt(Members(ns), i - 1);
    var s := Members(ns);
    assert Members(Drop(ns, i)) == s[..i - 1] + s[i..];
  }

  lemma AppendTable<T(!new)>(ns: seq<Node<T>>, t: map<T, Node<T>>, n: Node<T>)
    requires TableFor(ns, t) && n.data !in t
    ensures TableFor(ns + [n], t[n.data := n])
    ensures Members(ns + [n]) == Members(ns) + [n.data]
  {
    var r, u := ns + [n], t[n.data := n];
    forall v | v in u ensures ListedAs(r, u, v) {
      if v == n.data {
        assert r[|ns|] == u[v];
      } else {
        assert ListedAs(ns, t, v);
        var j :| 0 < j < |ns| && ns[j] == t[v] && ns[j].data == v;
        assert r[j] == u[v];
      }
    }
    forall j | 0 < j < |r| ensures MemberAt(r, u, j) {
      assert j < |ns| ==> MemberAt(ns, t, j);
    }
  }

  class LRUReplacer<T(==, !new)> {
    const head: Node<T>
    var tail: Node<T>
    var size: nat
    var table: map<T, Node<T>>
    ghost var nodes: seq<Node<T>>

    ghost predicate ListOk()
      reads this, nodes
    {
      && |nodes| > 0 && nodes[0] == head && nodes[|nodes| - 1] == tail && tail.next == null
      && NoDuplicates(nodes) && Linked(nodes)
    }

    /** The list is well linked from head to tail and the table knows exactly its members. */
    ghost predicate Valid()
      reads this, nodes
    {
      ListOk() && TableFor(nodes, table) && |nodes| == size + 1
    }

    /** The members, least recently inserted first. */
    ghost function Contents(): seq<T>
      requires |nodes| > 0
      reads this
    {
      Members(nodes)
    }

    constructor (dummy: T)
      ensures Valid() && Contents() == [] && fresh(nodes)
    {
      head := new Node(dummy, null);
      tail := head;
      size, table, nodes := 0, map[], [head];
    }

    lemma ContentsFacts()
      requires Valid()
      ensures NoDuplicates(Contents()) && |Contents()| == size
      ensures forall v :: v in table <==> v in Contents()
    {
      MembersFacts(nodes, table);
    }

    /** Takes the member node n out of the list. */
    method Unlink(n: Node<T>, ghost i: nat)
      requires ListOk() && 0 < i < |nodes| && nodes[i] == n
      modifies this`tail, this`nodes, nodes
      ensures ListOk() && nodes == Drop(old(nodes), i)
    {
      assert LinkedAt(nodes, i - 1);
      if n != tail {
        assert LinkedAt(nodes, i);
        var pre := n.pre;
        var cur := pre.next;
        pre.next := cur.next;
        pre.next.pre := pre;
      } else {
        tail := tail.pre;
        tail.next := null;
      }
      ghost var ns := nodes;
      nodes := Drop(ns, i);
      forall j | 0 <= j < |nodes| - 1 ensures LinkedAt(nodes, j) {
        assert j < i - 1 ==> old(LinkedAt(nodes, j));
        assert j >= i ==> old(LinkedAt(nodes, j + 1));
      }
    }

    /** Puts node n, not in the list, at the end. */
    method Append(n: Node<T>)
      requires ListOk() && n !in nodes
      modifies this`tail, this`nodes, tail, n
      ensures ListOk() && nodes == old(nodes) + [n]
    {
      n.pre := tail;
      n.next := null;
      tail.next := n;
      tail := n;
      ghost var ns := nodes;
      nodes := ns + [n];
      forall j | 0 <= j < |nodes| - 1 ensures LinkedAt(nodes, j) {
        assert j < |ns| - 1 ==> old(LinkedAt(nodes, j));
      }
    }

    /** A value seen for the first time gets a node at the end. */
    method InsertNew(value: T)
      requires Valid() && value !in table
      modifies this, nodes
      ensures Valid() && (forall n :: n in nodes ==> n in old(nodes) || fresh(n))
      ensures Contents() == old(Contents()) + [value]
    {
      var n := new Node(value, tail);
      AppendTable(nodes, table, n);
      Append(n);
      table := table[value := tail];
      size := size + 1;
    }

    /** A member moves to the end. */
    method MoveToEnd(n: Node<T>, ghost i: nat)
      requires Valid() && 0 < i < |nodes| && nodes[i] == n
      modifies this`tail, this`nodes, nodes
      ensures ListOk() && nodes == Drop(old(nodes), i) + [n]
    {
      Unlink(n, i);
      Append(n);
    }

    lemma MovedTable(ns: seq<Node<T>>, t: map<T, Node<T>>, i: nat)
      requires TableFor(ns, t) && NoDuplicates(ns) && 0 < i < |ns|
      ensures TableFor(Drop(ns, i) + [ns[i]], t)
      ensures Members(Drop(ns, i) + [ns[i]]) == Without(Members(ns), ns[i].data) + [ns[i].data]
    {
      DropTable(ns, t, i);
      DropMembers(ns, t, i);
      AppendTable(Drop(ns, i), t - {ns[i].data}, ns[i]);
      assert MemberAt(ns, t, i);
      assert (t - {ns[i].data})[ns[i].data := ns[i]] == t;
    }

    /** Insert makes the value the most recent member. */
    method Insert(value: T)
      requires Valid()
      modifies this, nodes
      ensures Valid() && (forall n :: n in nodes ==> n in old(nodes) || fresh(n))
      ensures Contents() == Apply(old(Contents()), DoInsert(value))
    {
      if value !in table {
        ContentsFacts();
        InsertNew(value);
      } else {
        Refresh(value);
      }
    }

    /** A member becomes the most recent one. */
    method Refresh(value: T)
      requires Valid() && value in table
      modifies this`tail, this`nodes, nodes
      ensures Valid() && (forall n :: n in nodes ==> n in old(nodes))
      ensures Contents() == Apply(old(Contents()), DoInsert(value))
    {
      ghost var i := NodeMoved(value);
      if table[value] != tail {
        MoveToEnd(table[value], i);
      }
    }

    /** The node of a member, and what moving it to the end makes of the list. */
    lemma NodeMoved(value: T) returns (i: nat)
      requires Valid() && value in table
      ensures 0 < i < |nodes| && nodes[i] == table[value] && TableFor(Drop(nodes, i) + [nodes[i]], table)
      ensures Members(Drop(nodes, i) + [nodes[i]]) == Apply(Contents(), DoInsert(value))
      ensures nodes[i] == tail ==> Drop(nodes, i) + [nodes[i]] == nodes
    {
      assert ListedAs(nodes, table, value);
      i :| 0 < i < |nodes| && nodes[i] == table[value] && nodes[i].data == value;
      MovedTable(nodes, table, i);
      if nodes[i] == tail {
        assert i == |nodes| - 1;
        assert Drop(nodes, i) + [nodes[i]] == nodes;
      }
    }

    /** Victim removes the member whose latest Insert is the oldest. */
    method Victim() returns (r: Victim<T>)
      requires Valid()
      modifies this, nodes
      ensures Valid() && (forall n :: n in nodes ==> n in old(nodes))
      ensures r == if old(Contents()) == [] then NoVictim else Chosen(old(Contents())[0])
      ensures Contents() == Apply(old(Contents()), DoVictim)
    {
      if size == 0 {
        return NoVictim;
      }
      assert LinkedAt(nodes, 0);
      DropTable(nodes, table, 1);
      assert Members(Drop(nodes, 1)) == Members(nodes)[1..];
      var value := head.next.data;
      r := Chosen(value);
      UnlinkFirst();
      table := table - {value};
      size := size - 1;
    }

    method UnlinkFirst()
      requires ListOk() && |nodes| > 1
      modifies this`tail, this`nodes, nodes
      ensures ListOk() && nodes == Drop(old(nodes), 1)
    {
      ghost var ns := nodes;
      assert LinkedAt(nodes, 0) && (|nodes| > 2 ==> LinkedAt(nodes, 1));
      head.next := head.next.next;
      if head.next != null {
        head.next.pre := head;
      } else {
        tail := head;
      }
      nodes := Drop(ns, 1);
      forall j | 0 <= j < |nodes| - 1 ensures LinkedAt(nodes, j) {
        assert j >= 1 ==> old(LinkedAt(nodes, j + 1));
      }
    }

    /** Erase takes one member out and leaves the others in order. */
    method Erase(value: T) returns (erased: bool)
      requires Valid()
      modifies this, nodes
      ensures Valid() && (forall n :: n in nodes ==> n in old(nodes))
      ensures erased <==> value in old(Contents())
      ensures Contents() == Apply(old(Contents()), DoErase(value))
    {
      erased := value in table;
      if erased {
        ghost var i := WithoutNode(value);
        TakeOut(value, i);
      } else {
        ContentsFacts();
      }
    }

    /** The node of a member, and what is left without it. */
    lemma WithoutNode(value: T) returns (i: nat)
      requires Valid() && value in table
      ensures 0 < i < |nodes| && nodes[i] == table[value] && value in Contents()
      ensures TableFor(Drop(nodes, i), table - {value}) && Members(Drop(nodes, i)) == Without(Contents(), value)
    {
      assert ListedAs(nodes, table, value);
      i :| 0 < i < |nodes| && nodes[i] == table[value] && nodes[i].data == value;
      DropTable(nodes, table, i);
      DropMembers(nodes, table, i);
      assert Contents()[i - 1] == value;
    }

    lemma TableSize()
      requires Valid()
      ensures |table| == size
    {
      ContentsFacts();
      DistinctCount(Contents());
      assert table.Keys == set v | v in Contents();
    }

    /** The debug walk over the list: its checks always pass. */
    method Check() returns (ok: bool)
      requires Valid()
      ensures ok
    {
      TableSize();
      var p := head;
      ghost var i := 0;
      ok := true;
      while p.next != null
        invariant 0 <= i < |nodes| && nodes[i] == p && ok
        decreases |nodes| - i
      {
        assert i < |nodes| - 1;
        assert LinkedAt(nodes, i);
        ok := ok && p == p.next.pre;
        p, i := p.next, i + 1;
      }
      assert i < |nodes| - 1 ==> LinkedAt(nodes, i);
      ok := ok && p == tail && |table| == size;
    }

    method TakeOut(value: T, ghost i: nat)
      requires ListOk() && |nodes| == size + 1 && 0 < i < |nodes| && value in table && nodes[i] == table[value]
      modifies this, nodes
      ensures ListOk() && |nodes| == size + 1 && nodes == Drop(old(nodes), i) && table == old(table) - {value}
      ensures forall n :: n in nodes ==> n in old(nodes)
    {
      Unlink(table[value], i);
      table := table - {value};
      size := size - 1;
    }
  }

  datatype Victim<T> = NoVictim | Chosen(value: T)

  // ---- Whole runs ----

  datatype Call<T> = DoInsert(value: T) | DoVictim | DoErase(value: T)

  /** What one call does to the members. */
  function Apply<T(==, !new)>(s: seq<T>, c: Call<T>): seq<T> {
    match c
    case DoInsert(v) => Without(s, v) + [v]
    case DoVictim => if s == [] then s else s[1..]
    case DoErase(v) => Without(s, v)
  }

  function After<T(==, !new)>(calls: seq<Call<T>>): seq<T> {
    if calls == [] then [] else Apply(After(calls[..|calls| - 1]), calls[|calls| - 1])
  }

  /** When v was last inserted: the position of the call, or -1. */
  function LastInsert<T(==)>(calls: seq<Call<T>>, v: T): (i: int)
    ensures -1 <= i < |calls|
    ensures i >= 0 ==> calls[i] == DoInsert(v)
    ensures forall j :: i < j < |calls| ==> calls[j] != DoInsert(v)
  {
    if calls == [] then -1
    else if calls[|calls| - 1] == DoInsert(v) then |calls| - 1
    else LastInsert(calls[..|calls| - 1], v)
  }

  ghost predicate Earlier<T>(calls: seq<Call<T>>, a: T, b: T) {
    0 <= LastInsert(calls, a) < LastInsert(calls, b)
  }

  ghost predicate OldestFirst<T>(s: seq<T>, calls: seq<Call<T>>) {
    && (forall v :: v in s ==> LastInsert(calls, v) >= 0)
    && (forall i, j {:trigger Earlier(calls, s[i], s[j])} :: 0 <= i < j < |s| ==> Earlier(calls, s[i], s[j]))
  }

  lemma {:induction false} WithoutOrdered<T(!new)>(s: seq<T>, v: T, calls: seq<Call<T>>)
    requires OldestFirst(s, calls)
    ensures OldestFirst(Without(s, v), calls)
  {
    if s != [] {
      var t := s[1..];
      forall i, j | 0 <= i < j < |t| ensures Earlier(calls, t[i], t[j]) {
        assert Earlier(calls, s[i + 1], s[j + 1]);
      }
      WithoutOrdered(t, v, calls);
      var w := Without(t, v);
      if s[0] != v {
        var r := [s[0]] + w;
        forall i, j | 0 <= i < j < |r| ensures Earlier(calls, r[i], r[j]) {
          assert r[j] == w[j - 1] && w[j - 1] in t;
          if i == 0 {
            var k :| 0 <= k < |t| && t[k] == r[j];
            assert Earlier(calls, s[0], s[k + 1]);
          } else {
            assert Earlier(calls, w[i - 1], w[j - 1]);
          }
        }
      }
    }
  }

  /** After any run the members stand in the order of their latest Insert. */
  lemma {:induction false} RunOrdered<T(!new)>(calls: seq<Call<T>>)
    ensures OldestFirst(After(calls), calls)
  {
    if calls != [] {
      var before, last := calls[..|calls| - 1], calls[|calls| - 1];
      var s := After(before);
      RunOrdered(before);
      var w := if last.DoVictim? then Apply(s, last) else Without(s, last.value);
      if last.DoVictim? {
        forall i, j | 0 <= i < j < |w| ensures Earlier(before, w[i], w[j]) {
          assert Earlier(before, s[i + 1], s[j + 1]);
        }
      } else {
        WithoutOrdered(s, last.value, before);
      }
      StepOrdered(w, before, last);
      assert calls == before + [last];
      assert After(calls) == w + if last.DoInsert? then [last.value] else [];
    }
  }

  lemma StepOrdered<T(!new)>(w: seq<T>, before: seq<Call<T>>, last: Call<T>)
    requires OldestFirst(w, before)
    requires !last.DoVictim? ==> last.value !in w
    ensures OldestFirst(w + (if last.DoInsert? then [last.value] else []), before + [last])
  {
    var calls := before + [last];
    assert calls[..|before|] == before;
    var r := w + if last.DoInsert? then [last.value] else [];
    forall v | v in w ensures LastInsert(calls, v) == LastInsert(before, v) {
    }
    forall i, j | 0 <= i < j < |r| ensures Earlier(calls, r[i], r[j]) {
      assert r[i] in w;
      if j < |w| {
        assert Earlier(before, w[i], w[j]);
      }
    }
  }

  /** So the next victim is the member whose latest Insert is the oldest. */
  lemma VictimIsOldest<T(!new)>(calls: seq<Call<T>>, v: T)
    requires v in After(calls)
    ensures LastInsert(calls, After(calls)[0]) <= LastInsert(calls, v)
    ensures v != After(calls)[0] ==> LastInsert(calls, After(calls)[0]) < LastInsert(calls, v)
  {
    RunOrdered(calls);
    var s := After(calls);
    var j :| 0 <= j < |s| && s[j] == v;
    assert j > 0 ==> Earlier(calls, s[0], s[j]);
  }

  lemma RunDistinct<T(!new)>(calls: seq<Call<T>>)
    ensures NoDuplicates(After(calls))
  {
    RunOrdered(calls);
    var s := After(calls);
    forall i, j | 0 <= i < j < |s| ensures s[i] != s[j] {
      assert Earlier(calls, s[i], s[j]);
    }
  }

  ghost predicate Untaken<T(!new)>(calls: seq<Call<T>>, j: int, v: T)
    requires 0 <= j < |calls|
  {
    && calls[j] != DoErase(v)
    && (calls[j] == DoVictim ==> After(calls[..j]) != [] && After(calls[..j])[0] != v)
  }

  lemma MemberStep<T(!new)>(s: seq<T>, last: Call<T>, v: T)
    requires NoDuplicates(s)
    ensures v in Apply(s, last) <==>
      last == DoInsert(v) || (v in s && last != DoErase(v) && !(last == DoVictim && s[0] == v))
  {
    if last.DoVictim? && s != [] { assert s == [s[0]] + s[1..]; }
  }

  lemma UntakenPrefix<T(!new)>(calls: seq<Call<T>>, n: nat, j: nat, v: T)
    requires j < n <= |calls|
    ensures Untaken(calls, j, v) == Untaken(calls[..n], j, v)
  {
    assert calls[..n][..j] == calls[..j];
  }

  /** A value is a member exactly as long as nothing has erased it or chosen it since its latest Insert. */
  lemma {:induction false} StaysUntilTaken<T(!new)>(calls: seq<Call<T>>, v: T)
    ensures v in After(calls) <==>
      LastInsert(calls, v) >= 0 && forall j {:trigger Untaken(calls, j, v)} :: LastInsert(calls, v) < j < |calls| ==>
        Untaken(calls, j, v)
  {
    if calls != [] {
      var n := |calls| - 1;
      var before, last := calls[..n], calls[n];
      StaysUntilTaken(before, v);
      RunDistinct(before);
      MemberStep(After(before), last, v);
      if last != DoInsert(v) {
        forall j | 0 <= j < n ensures Untaken(calls, j, v) == Untaken(before, j, v) { UntakenPrefix(calls, n, j, v); }
        assert v in After(before) ==> (v in After(calls) <==> Untaken(calls, n, v));
      }
    }
  }
}
