/** Grants and wake-ups in every reachable state of the lock manager, upgrades included. */
module LockTheorems {
  import opened LockProtocol
  import opened LockSafety

  /** In every state of every run, upgrades included: granted requests are a prefix of each queue, and
      a granted exclusive request is the head of its queue and the only granted one. */
  lemma GrantsInEveryState(run: seq<State>, acts: seq<Step>, n: nat, rid: int, i: nat, j: nat)
    requires IsRun(run, acts) && n < |run| && rid in run[n].table
    requires var list := run[n].table[rid].list; i < |list| && j < |list| && i != j && list[i].granted
    ensures var list := run[n].table[rid].list;
            && (j < i ==> list[j].granted)
            && (list[i].mode == Exclusive ==> i == 0 && !list[j].granted)
  {
    RunKeeps(run, acts, n);
    assert QueueOk(run[n], rid);
    var list := run[n].table[rid].list;
    assert list[i].granted && list[j] == list[j];
  }

  // ----- wake-ups ----------------------------------------------------------------

  ghost predicate CanWake(s: State, u: nat)
    requires Sleeps(s, u)
  {
    Ready(s.table[s.txns[u].blocked.rid].list, u, s.txns[u].blocked.mode)
  }

  lemma DropDistinct(list: seq<Request>, i: nat)
    requires Distinct(list) && i < |list|
    ensures Distinct(Drop(list, i))
  {
    var l := Drop(list, i);
    forall a, b | 0 <= a < b < |l| ensures l[a].txn != l[b].txn {
      assert l[a] == list[if a < i then a else a + 1] && l[b] == list[if b < i then b else b + 1];
    }
  }

  lemma DropReady(list: seq<Request>, i: nat, u: nat, mode: Mode)
    requires Distinct(list) && 0 < i < |list| && list[i].txn != u && list[i].mode == Shared && list[i].granted
    requires Pos(list, u) < |list| && Ready(Drop(list, i), u, mode)
    ensures Ready(list, u, mode)
  {
    var p, l := Pos(list, u), Drop(list, i);
    if mode == Shared {
      DropDistinct(list, i);
      var p' := if p < i then p else p - 1;
      assert l[p'] == list[p];
      PosIs(l, u, p');
      forall j | 0 <= j < p ensures list[j].mode == Shared && list[j].granted {
        if j != i { assert list[j] == l[if j < i then j else j - 1]; }
      }
    }
  }

  lemma MoveBackReady(list: seq<Request>, src: nat, tgt: nat, u: nat, mode: Mode)
    requires Distinct(list) && src < |list| && src < tgt <= |list| && list[src].txn != u
    requires list[src].mode == Shared && list[src].granted && (forall j :: src <= j < tgt ==> list[j].mode == Shared)
    requires Pos(list, u) < |list| && list[Pos(list, u)].mode == mode && Ready(MoveBack(list, src, tgt), u, mode)
    ensures Ready(list, u, mode)
  {
    var p, l := Pos(list, u), MoveBack(list, src, tgt);
    var p' := if src < p < tgt then p - 1 else p;
    assert l[p'].txn == u;
    if mode == Shared {
      assert Distinct(l);
      PosIs(l, u, p');
      forall j | 0 <= j < p ensures list[j].mode == Shared && list[j].granted {
        if j < src { assert l[j] == list[j]; }
        else if src < j < tgt { assert l[j - 1] == list[j]; }
      }
    }
  }

  /** No wake-up is lost: a step that makes another sleeper's condition true ends with notify_all. */
  lemma NoLostWakeup(s: State, a: Step, u: nat)
    requires Inv(s) && Enabled(s, a) && Sleeps(s, u) && Sleeps(Next(s, a), u)
    requires !CanWake(s, u) && CanWake(Next(s, a), u)
    ensures Notifies(s, a)
  {
    var s' := Next(s, a);
    assert TxnOk(s, u);
    match a
    case Begin =>
    case Finish(t, _) =>
    case LockEnter(t, rid, mode) =>
      assert u != t;
      var q := s.txns[u].blocked.rid;
      EnterReady(s, t, rid, mode, u);
    case LockGrant(t) =>
      if s.txns[t].blocked.mode == Exclusive {
        ExclusiveGrantReady(s, t, u);
      }
    case UpgradeEnter(t, rid) =>
      assert QueueOk(s, rid) && u != t;
      var list := s.table[rid].list;
      var src := Pos(list, t);
      assert RequestOk(s, rid, list[src]);
      if s' != s && s.txns[u].blocked.rid == rid {
        var p := Pos(list, u);
        assert RequestOk(s, rid, list[p]);
        MoveBackReady(list, src, FirstExclusive(list, src), u, s.txns[u].blocked.mode);
      }
    case Unlock(t, rid) =>
      assert QueueOk(s, rid) && u != t;
      var list := s.table[rid].list;
      var i := Pos(list, t);
      if !UnlockRefused(s, t) && i < |list| && s.txns[u].blocked.rid == rid && i > 0 && list[i].mode == Shared {
        assert RequestOk(s, rid, list[i]);
        DropReady(list, i, u, s.txns[u].blocked.mode);
      }
  }

  /** An Unlock notifies exactly if it is accepted and its transaction was the head of the queue; a grant exactly if
    * it is shared; no other step notifies. */
  lemma NotifyExactly(s: State, a: Step)
    requires Inv(s) && Enabled(s, a)
    ensures Notifies(s, a) <==>
      || (a.LockGrant? && s.txns[a.txn].blocked.mode == Shared)
      || (a.Unlock? && !UnlockRefused(s, a.txn) && s.table[a.rid].list != [] && s.table[a.rid].list[0].txn == a.txn)
  {
    if a.Unlock? {
      assert QueueOk(s, a.rid);
      var list := s.table[a.rid].list;
      var i := Pos(list, a.txn);
      if 0 < i < |list| { assert RequestOk(s, a.rid, list[i]) && list[i].granted && GrantsOk(list); }
    }
  }

  lemma EnterReady(s: State, t: nat, rid: int, mode: Mode, u: nat)
    requires Inv(s) && Enabled(s, LockEnter(t, rid, mode)) && Sleeps(s, u) && u != t
      && Sleeps(DoLockEnter(s, t, rid, mode), u)
    requires CanWake(DoLockEnter(s, t, rid, mode), u)
    ensures CanWake(s, u)
  {
    assert TxnOk(s, u);
    var q := s.txns[u].blocked.rid;
    var list, list' := s.table[q].list, DoLockEnter(s, t, rid, mode).table[q].list;
    var p := Pos(list, u);
    assert list' == list || list' == list + [Request(t, mode, false)];
    assert list'[p] == list[p] && forall j :: 0 <= j < p ==> list'[j] == list[j];
    assert Pos(list', u) == p;
  }

  lemma ExclusiveGrantReady(s: State, t: nat, u: nat)
    requires Inv(s) && Enabled(s, LockGrant(t)) && s.txns[t].blocked.mode == Exclusive
    requires Sleeps(s, u) && u != t && Sleeps(DoLockGrant(s, t), u) && CanWake(DoLockGrant(s, t), u)
    ensures CanWake(s, u)
  {
    assert TxnOk(s, u) && TxnOk(s, t);
    var rid, q := s.txns[t].blocked.rid, s.txns[u].blocked.rid;
    assert QueueOk(s, rid);
    assert RequestOk(s, rid, s.table[rid].list[0]);
  }
}
