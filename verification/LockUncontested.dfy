/** A condition on the upgrade calls alone: no upgrade enters a queue in which another upgrader sleeps. */
module LockUncontested {
  import opened LockProtocol
  import opened LockSafety
  import opened LockSerial

  /** The step is an upgrade that is not refused, on a record on which another transaction sleeps in LockUpgrade. */
  ghost predicate Contested(s: State, a: Step)
    requires Enabled(s, a)
  {
    a.UpgradeEnter? && Next(s, a) != s && exists t: nat :: t != a.txn && Upgrading(s, t, a.rid)
  }

  ghost predicate Uncontested(run: seq<State>, acts: seq<Step>)
    requires IsRun(run, acts)
  {
    forall i {:trigger StepAt(run, acts, i)} :: 0 <= i < |acts| ==> StepAt(run, acts, i) && !Contested(run[i], acts[i])
  }

  /** Everything ahead of t in the queue of rid is shared. */
  ghost predicate SharedAhead(s: State, t: nat, rid: int) {
    rid in s.table && forall i :: 0 <= i < Pos(s.table[rid].list, t) ==> s.table[rid].list[i].mode == Shared
  }

  /** At the moment of its upgrade a transaction has only shared requests ahead. */
  lemma UpgradeStartsBehindShared(s: State, t: nat, rid: int)
    requires Inv(s) && Enabled(s, UpgradeEnter(t, rid)) && DoUpgradeEnter(s, t, rid) != s
    ensures SharedAhead(DoUpgradeEnter(s, t, rid), t, rid)
  {
    assert QueueOk(s, rid);
    var list := s.table[rid].list;
    var src := Pos(list, t);
    assert RequestOk(s, rid, list[src]);
    MoveBackPos(list, src, FirstExclusive(list, src), t);
    forall i | 0 <= i < src ensures list[i].mode == Shared { assert list[i].granted; }
  }

  lemma DropShared(list: seq<Request>, k: nat, t: nat)
    requires Distinct(list) && k < |list| && list[k].txn != t && Pos(list, t) < |list|
    requires forall i :: 0 <= i < Pos(list, t) ==> list[i].mode == Shared
    ensures forall i :: 0 <= i < Pos(Drop(list, k), t) ==> Drop(list, k)[i].mode == Shared
  {
    var i, l := Pos(list, t), Drop(list, k);
    assert l[if k < i then i - 1 else i].txn == t;
    forall j | 0 <= j < Pos(l, t) ensures l[j].mode == Shared { assert l[j] == list[if j < k then j else j + 1]; }
  }

  lemma UnlockKeepsShared(s: State, u: nat, q: int, t: nat, rid: int)
    requires Inv(s) && Enabled(s, Unlock(u, q)) && Upgrading(s, t, rid) && SharedAhead(s, t, rid) && u != t
    ensures SharedAhead(DoUnlock(s, u, q), t, rid)
  {
    assert QueueOk(s, rid) && TxnOk(s, t);
    var list := s.table[rid].list;
    if q == rid && Pos(list, u) < |list| { DropShared(list, Pos(list, u), t); }
  }

  lemma UpgradeKeepsShared(s: State, u: nat, q: int, t: nat, rid: int)
    requires Inv(s) && Enabled(s, UpgradeEnter(u, q)) && Upgrading(s, t, rid) && SharedAhead(s, t, rid) && u != t
    requires q != rid || DoUpgradeEnter(s, u, q) == s
    ensures SharedAhead(DoUpgradeEnter(s, u, q), t, rid)
  {
  }

  lemma EnterKeepsShared(s: State, u: nat, q: int, m: Mode, t: nat, rid: int)
    requires Inv(s) && Enabled(s, LockEnter(u, q, m)) && Upgrading(s, t, rid) && SharedAhead(s, t, rid)
    ensures SharedAhead(DoLockEnter(s, u, q, m), t, rid)
  {
    assert TxnOk(s, t);
    var list, list' := s.table[rid].list, DoLockEnter(s, u, q, m).table[rid].list;
    assert list' == list || list' == list + [Request(u, m, false)];
    var i := Pos(list, t);
    assert list'[i].txn == t && forall j :: 0 <= j < i ==> list'[j] == list[j];
    assert Pos(list', t) == i;
  }

  lemma GrantKeepsShared(s: State, u: nat, t: nat, rid: int)
    requires Inv(s) && Enabled(s, LockGrant(u)) && Upgrading(s, t, rid) && SharedAhead(s, t, rid)
    ensures SharedAhead(DoLockGrant(s, u), t, rid)
  {
    assert TxnOk(s, t);
    var list, list' := s.table[rid].list, DoLockGrant(s, u).table[rid].list;
    var i := Pos(list, t);
    assert |list'| == |list| && forall j :: 0 <= j < |list| ==>
      list'[j].txn == list[j].txn && list'[j].mode == list[j].mode;
    assert Pos(list', t) == i;
  }

  lemma StepKeepsShared(s: State, a: Step, t: nat, rid: int)
    requires Inv(s) && Enabled(s, a) && !Contested(s, a) && Upgrading(Next(s, a), t, rid)
    requires Upgrading(s, t, rid) ==> SharedAhead(s, t, rid)
    ensures SharedAhead(Next(s, a), t, rid)
  {
    match a
    case Begin =>
    case Finish(_, _) =>
    case LockEnter(u, q, m) => EnterKeepsShared(s, u, q, m, t, rid);
    case LockGrant(u) => GrantKeepsShared(s, u, t, rid);
    case Unlock(u, q) => UnlockKeepsShared(s, u, q, t, rid);
    case UpgradeEnter(u, q) =>
      if u == t { UpgradeStartsBehindShared(s, t, q); } else { UpgradeKeepsShared(s, u, q, t, rid); }
  }

  lemma {:induction false} AlwaysSharedAhead(run: seq<State>, acts: seq<Step>, n: nat, t: nat, rid: int)
    requires IsRun(run, acts) && Uncontested(run, acts) && n < |run| && Upgrading(run[n], t, rid)
    ensures SharedAhead(run[n], t, rid)
  {
    RunKeeps(run, acts, n - 1);
    assert StepAt(run, acts, n - 1);
    if Upgrading(run[n - 1], t, rid) { AlwaysSharedAhead(run, acts, n - 1, t, rid); }
    StepKeepsShared(run[n - 1], acts[n - 1], t, rid);
  }

  /** Without contested upgrades no sleeping upgrader is overtaken. */
  lemma UncontestedNotOvertaken(run: seq<State>, acts: seq<Step>)
    requires IsRun(run, acts) && Uncontested(run, acts)
    ensures !Overtaken(run, acts)
  {
    forall t: nat, u: nat, rid, k: nat, j: nat ensures !Overtakes(run, acts, t, u, rid, k, j) {
      if t != u && k < j && GrantOf(run, acts, k, u, rid, Exclusive) && k < |run| && Upgrading(run[k], t, rid) {
        AlwaysSharedAhead(run, acts, k, t, rid);
        HeadIsExclusive(run, acts, k, t, u, rid);
      }
    }
  }

  lemma HeadIsExclusive(run: seq<State>, acts: seq<Step>, k: nat, t: nat, u: nat, rid: int)
    requires IsRun(run, acts) && t != u && GrantOf(run, acts, k, u, rid, Exclusive) && Upgrading(run[k], t, rid)
    ensures !SharedAhead(run[k], t, rid)
  {
    RunKeeps(run, acts, k);
    assert StepAt(run, acts, k) && TxnOk(run[k], t);
    assert QueueOk(run[k], rid);
    assert RequestOk(run[k], rid, run[k].table[rid].list[0]);
  }

  /** Runs in which every upgrade is refused or uncontested are conflict serializable: conflicting locks are granted in
      the order of the lock points, and the conflict graph has no cycle. */
  lemma UncontestedSerializable(run: seq<State>, acts: seq<Step>)
    requires IsRun(run, acts) && Uncontested(run, acts)
    ensures !HasCycle(run, acts)
    ensures forall t: nat, u: nat :: Before(run, acts, t, u) ==> LastGrant(acts, t) < LastGrant(acts, u)
  {
    UncontestedNotOvertaken(run, acts);
    CycleExactly(run, acts);
    forall t: nat, u: nat | Before(run, acts, t, u) ensures LastGrant(acts, t) < LastGrant(acts, u) {
      LockPointOrder(run, acts, t, u);
    }
  }
}
