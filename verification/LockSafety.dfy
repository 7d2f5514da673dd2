/** What holds in every reachable state of the lock table, upgrades included. */
module LockSafety {
  import opened LockProtocol

  lemma PosIs(list: seq<Request>, t: nat, i: nat)
    requires Distinct(list) && i < |list| && list[i].txn == t
    ensures Pos(list, t) == i
  {
  }

  ghost predicate BlockedOnly(x: Txn, rid: int) {
    x.blocked.Running? || x.blocked.rid == rid
  }

  /** A step of t on queue rid keeps the invariant if the new queue is in order, holds the same
      requests of the others, and t's own request matches what t is blocked on. */
  lemma OneQueueChanged(s: State, s': State, t: nat, rid: int)
    requires Inv(s) && t < |s.txns| == |s'.txns|
    requires forall u :: 0 <= u < |s.txns| && u != t ==> s'.txns[u] == s.txns[u]
    requires s'.table.Keys == s.table.Keys + {rid}
    requires forall q :: q in s.table && q != rid ==> s'.table[q] == s.table[q]
    requires var list' := s'.table[rid].list;
             && Distinct(list') && GrantsOk(list')
             && (forall r :: r in list' && r.txn == t ==> RequestOk(s', rid, r))
             && (forall r :: r in list' && r.txn != t ==> rid in s.table && r in s.table[rid].list)
             && (rid in s.table ==> forall r :: r in s.table[rid].list && r.txn != t ==> r in list')
    requires BlockedOnly(s.txns[t], rid) && BlockedOnly(s'.txns[t], rid) && TxnOk(s', t)
    ensures Inv(s')
  {
    forall q | q in s'.table ensures QueueOk(s', q) {
      var list' := s'.table[q].list;
      if q in s.table { assert QueueOk(s, q); }
      forall i | 0 <= i < |list'| ensures RequestOk(s', q, list'[i]) {
        assert list'[i] in list';
        if q != rid || list'[i].txn != t {
          var j :| 0 <= j < |s.table[q].list| && s.table[q].list[j] == list'[i];
          assert RequestOk(s, q, s.table[q].list[j]);
        }
      }
    }
    forall u | 0 <= u < |s'.txns| ensures TxnOk(s', u) {
      assert TxnOk(s, u);
      if u != t && s.txns[u].blocked.Awaits? {
        var q := s.txns[u].blocked.rid;
        assert s.table[q].list[Pos(s.table[q].list, u)] in s'.table[q].list;
      }
    }
  }

  /** A step that changes no queue and no blocking keeps the invariant. */
  lemma OnlyStateChanged(s: State, s': State, t: nat)
    requires Inv(s) && t < |s.txns| == |s'.txns| && s'.table == s.table
      && s'.txns == s.txns[t := s.txns[t].(state := s'.txns[t].state)]
    requires s.txns[t].blocked == Running
    ensures Inv(s')
  {
    forall q | q in s'.table ensures QueueOk(s', q) {
      assert QueueOk(s, q);
      forall i | 0 <= i < |s.table[q].list| ensures RequestOk(s', q, s.table[q].list[i]) {
        assert RequestOk(s, q, s.table[q].list[i]);
      }
    }
    forall u | 0 <= u < |s'.txns| ensures TxnOk(s', u) { assert TxnOk(s, u); }
  }

  lemma GrantKeeps(list: seq<Request>, i: nat)
    requires Distinct(list) && GrantsOk(list) && i < |list| && !list[i].granted
    requires if list[i].mode == Shared then forall j :: 0 <= j < i ==> list[j].mode == Shared && list[j].granted
             else i == 0
    ensures Distinct(list[i := list[i].(granted := true)]) && GrantsOk(list[i := list[i].(granted := true)])
  {
  }

  lemma DropKeeps(list: seq<Request>, i: nat)
    requires Distinct(list) && GrantsOk(list) && i < |list|
    ensures Distinct(Drop(list, i)) && GrantsOk(Drop(list, i))
    ensures forall r :: r in list && r != list[i] ==> r in Drop(list, i)
    ensures forall r :: r in Drop(list, i) ==> r in list && r.txn != list[i].txn
  {
    var l := Drop(list, i);
    forall a, b | 0 <= a < |l| && 0 <= b < |l| && a != b && l[a].granted && l[a].mode == Exclusive
      ensures a == 0 && !l[b].granted
    {
      assert l[a] == list[if a < i then a else a + 1] && l[b] == list[if b < i then b else b + 1];
    }
    forall r | r in list && r != list[i] ensures r in l {
      var j :| 0 <= j < |list| && list[j] == r;
      assert l[if j < i then j else j - 1] == r;
    }
  }

  lemma MoveBackDistinct(list: seq<Request>, src: nat, tgt: nat)
    requires Distinct(list) && src < |list| && src < tgt <= |list|
    ensures Distinct(MoveBack(list, src, tgt))
  {
    var l := MoveBack(list, src, tgt);
    forall a, b | 0 <= a < b < |l| ensures l[a].txn != l[b].txn {
      assert l[a].txn == list[if a < src || a >= tgt then a else if a == tgt - 1 then src else a + 1].txn;
      assert l[b].txn == list[if b < src || b >= tgt then b else if b == tgt - 1 then src else b + 1].txn;
    }
  }

  lemma MoveBackGrants(list: seq<Request>, src: nat, tgt: nat)
    requires GrantsOk(list) && src < |list| && src < tgt <= |list|
    requires list[src].granted && list[src].mode == Shared && (tgt < |list| ==> list[tgt].mode == Exclusive)
    ensures GrantsOk(MoveBack(list, src, tgt))
  {
    var l := MoveBack(list, src, tgt);
    assert tgt < |list| ==> !list[tgt].granted;
    assert forall j :: tgt <= j < |list| ==> !list[j].granted;
  }

  lemma MoveBackKeeps(list: seq<Request>, src: nat, tgt: nat)
    requires Distinct(list) && GrantsOk(list) && src < |list| && src < tgt <= |list|
    requires list[src].granted && list[src].mode == Shared && (tgt < |list| ==> list[tgt].mode == Exclusive)
    ensures Distinct(MoveBack(list, src, tgt)) && GrantsOk(MoveBack(list, src, tgt))
    ensures forall r :: r in list && r.txn != list[src].txn <==> r in MoveBack(list, src, tgt) && r.txn != list[src].txn
  {
    MoveBackDistinct(list, src, tgt);
    MoveBackGrants(list, src, tgt);
    forall r: Request | r.txn != list[src].txn
      ensures r in list <==> r in MoveBack(list, src, tgt) { MoveBackMember(list, src, tgt, r); }
  }

  lemma MoveBackMember(list: seq<Request>, src: nat, tgt: nat, r: Request)
    requires src < |list| && src < tgt <= |list| && r.txn != list[src].txn
    ensures r in list <==> r in MoveBack(list, src, tgt)
  {
    var l := MoveBack(list, src, tgt);
    if r in list {
      var j :| 0 <= j < |list| && list[j] == r;
      assert l[if src < j < tgt then j - 1 else j] == r;
    }
    if r in l {
      var j :| 0 <= j < |l| && l[j] == r;
      assert list[if src <= j < tgt - 1 then j + 1 else j] == r;
    }
  }

  lemma EnterKeeps(s: State, t: nat, rid: int, mode: Mode)
    requires Inv(s) && Enabled(s, LockEnter(t, rid, mode))
    ensures Inv(DoLockEnter(s, t, rid, mode))
  {
    var s' := DoLockEnter(s, t, rid, mode);
    if s'.txns[t].blocked == Running {
      if s' != s { OnlyStateChanged(s, s', t); }
    } else {
      if rid in s.table { assert QueueOk(s, rid); }
      var list' := s'.table[rid].list;
      assert list'[|list'| - 1] == Request(t, mode, false);
      OneQueueChanged(s, s', t, rid);
    }
  }

  lemma GrantStepKeeps(s: State, t: nat)
    requires Inv(s) && Enabled(s, LockGrant(t))
    ensures Inv(DoLockGrant(s, t))
  {
    var s' := DoLockGrant(s, t);
    var rid := s.txns[t].blocked.rid;
    assert QueueOk(s, rid);
    var list, list' := s.table[rid].list, s'.table[rid].list;
    var i := Pos(list, t);
    assert RequestOk(s, rid, list[i]);
    GrantKeeps(list, i);
    assert forall j :: 0 <= j < |list| && j != i ==> list'[j] == list[j] && list[j].txn != t;
    OneQueueChanged(s, s', t, rid);
  }

  lemma UpgradeKeeps(s: State, t: nat, rid: int)
    requires Inv(s) && Enabled(s, UpgradeEnter(t, rid))
    ensures Inv(DoUpgradeEnter(s, t, rid))
  {
    var s' := DoUpgradeEnter(s, t, rid);
    assert QueueOk(s, rid);
    var list := s.table[rid].list;
    var src := Pos(list, t);
    var tgt := FirstExclusive(list, src);
    assert RequestOk(s, rid, list[src]);
    if s' != s {
      MoveBackKeeps(list, src, tgt);
      assert s'.table[rid].list[tgt - 1].txn == t;
      OneQueueChanged(s, s', t, rid);
    }
  }

  lemma UnlockKeeps(s: State, t: nat, rid: int)
    requires Inv(s) && Enabled(s, Unlock(t, rid))
    ensures Inv(DoUnlock(s, t, rid))
  {
    var s' := DoUnlock(s, t, rid);
    assert QueueOk(s, rid);
    var list := s.table[rid].list;
    var i := Pos(list, t);
    if UnlockRefused(s, t) || i == |list| {
      OnlyStateChanged(s, s', t);
    } else {
      DropKeeps(list, i);
      OneQueueChanged(s, s', t, rid);
    }
  }

  /** Every step keeps the invariant. */
  lemma StepKeeps(s: State, a: Step)
    requires Inv(s) && Enabled(s, a)
    ensures Inv(Next(s, a))
  {
    match a
    case LockEnter(t, rid, mode) => EnterKeeps(s, t, rid, mode);
    case LockGrant(t) => GrantStepKeeps(s, t);
    case UpgradeEnter(t, rid) => UpgradeKeeps(s, t, rid);
    case Unlock(t, rid) => UnlockKeeps(s, t, rid);
    case Begin =>
      var s' := Next(s, a);
      forall q | q in s'.table ensures QueueOk(s', q) {
        assert QueueOk(s, q);
        forall i | 0 <= i < |s.table[q].list| ensures RequestOk(s', q, s.table[q].list[i]) {
          assert RequestOk(s, q, s.table[q].list[i]);
        }
      }
      forall u | 0 <= u < |s.txns| ensures TxnOk(s', u) { assert TxnOk(s, u); }
    case Finish(t, _) =>
      var s' := Next(s, a);
      OnlyStateChanged(s, s', t);
  }

  /** In every state of every run the invariant holds. */
  lemma {:induction false} RunKeeps(run: seq<State>, acts: seq<Step>, n: nat)
    requires IsRun(run, acts) && n < |run|
    ensures Inv(run[n])
  {
    if n > 0 {
      RunKeeps(run, acts, n - 1);
      assert StepAt(run, acts, n - 1);
      StepKeeps(run[n - 1], acts[n - 1]);
    }
  }
}
