/** The lock manager's runs are two-phase; they are conflict serializable exactly when no sleeping upgrader is
  * overtaken. */
module LockSerial {
  import opened LockProtocol
  import opened LockSafety

  /** Step i grants t a lock on rid. */
  ghost predicate GrantOf(run: seq<State>, acts: seq<Step>, i: nat, t: nat, rid: int, mode: Mode) {
    && i < |acts| && i < |run| && acts[i] == LockGrant(t) && t < |run[i].txns|
    && run[i].txns[t].blocked.Awaits? && run[i].txns[t].blocked.rid == rid && run[i].txns[t].blocked.mode == mode
  }

  ghost predicate Holds(s: State, t: nat, rid: int, mode: Mode) {
    && rid in s.table
    && var list := s.table[rid].list;
       var i := Pos(list, t);
       i < |list| && list[i].granted && list[i].mode == mode
  }

  /** The lock point: the index of t's last grant, or -1. */
  function LastGrant(acts: seq<Step>, t: nat): (r: int)
    ensures -1 <= r < |acts|
    ensures r >= 0 ==> acts[r] == LockGrant(t)
    ensures forall i :: r < i < |acts| ==> acts[i] != LockGrant(t)
  {
    if acts == [] then -1
    else if acts[|acts| - 1] == LockGrant(t) then |acts| - 1
    else
      var r := LastGrant(acts[..|acts| - 1], t);
      assert forall i :: 0 <= i < |acts| - 1 ==> acts[i] == acts[..|acts| - 1][i];
      r
  }

  /** Transaction t was granted a lock that conflicts with one granted to u later on. */
  ghost predicate Before(run: seq<State>, acts: seq<Step>, t: nat, u: nat) {
    t != u && exists rid, i: nat, j: nat, m, n ::
      i < j && GrantOf(run, acts, i, t, rid, m) && GrantOf(run, acts, j, u, rid, n)
        && (m == Exclusive || n == Exclusive)
  }

  /** Transaction t sleeps in LockUpgrade on rid. */
  ghost predicate Upgrading(s: State, t: nat, rid: int) {
    t < |s.txns| && s.txns[t].blocked == Awaits(rid, Exclusive, true)
  }

  /** What is left of a lock of that mode until its owner unlocks: an exclusive one stays granted, a shared one may
      have turned into an upgrade, asleep or granted. */
  ghost predicate Claims(s: State, t: nat, rid: int, mode: Mode) {
    && rid in s.table
    && var list := s.table[rid].list;
       var i := Pos(list, t);
       && i < |list| && (list[i].granted || Upgrading(s, t, rid))
       && (mode == Exclusive ==> list[i].granted && list[i].mode == Exclusive)
  }

  lemma ClaimsAt(s: State, t: nat, rid: int, mode: Mode, i: nat)
    requires rid in s.table && i < |s.table[rid].list| && s.table[rid].list[i].txn == t
    requires forall j :: 0 <= j < i ==> s.table[rid].list[j].txn != t
    requires s.table[rid].list[i].granted || Upgrading(s, t, rid)
    requires mode == Exclusive ==> s.table[rid].list[i].granted && s.table[rid].list[i].mode == Exclusive
    ensures Claims(s, t, rid, mode)
  {
    assert Pos(s.table[rid].list, t) == i;
  }

  lemma ClaimEnter(s: State, u: nat, q: int, m: Mode, t: nat, rid: int, mode: Mode)
    requires Inv(s) && Enabled(s, LockEnter(u, q, m)) && Claims(s, t, rid, mode)
    ensures Claims(DoLockEnter(s, u, q, m), t, rid, mode)
  {
    var s', list := DoLockEnter(s, u, q, m), s.table[rid].list;
    assert s'.table[rid].list == list || s'.table[rid].list == list + [Request(u, m, false)];
    ClaimsAt(s', t, rid, mode, Pos(list, t));
  }

  lemma ClaimGrant(s: State, u: nat, t: nat, rid: int, mode: Mode)
    requires Inv(s) && Enabled(s, LockGrant(u)) && Claims(s, t, rid, mode)
    ensures Claims(DoLockGrant(s, u), t, rid, mode)
  {
    ClaimsAt(DoLockGrant(s, u), t, rid, mode, Pos(s.table[rid].list, t));
  }

  lemma MoveBackPos(list: seq<Request>, src: nat, tgt: nat, t: nat)
    requires Distinct(list) && src < |list| && src < tgt <= |list| && Pos(list, t) < |list|
    ensures var i := Pos(list, t);
      Pos(MoveBack(list, src, tgt), t) == if i == src then tgt - 1 else if src < i < tgt then i - 1 else i
  {
    var i := Pos(list, t);
    MoveBackDistinct(list, src, tgt);
    PosIs(MoveBack(list, src, tgt), t, if i == src then tgt - 1 else if src < i < tgt then i - 1 else i);
  }

  lemma ClaimUpgrade(s: State, u: nat, q: int, t: nat, rid: int, mode: Mode)
    requires Inv(s) && Enabled(s, UpgradeEnter(u, q)) && Claims(s, t, rid, mode)
    ensures Claims(DoUpgradeEnter(s, u, q), t, rid, mode)
  {
    var s', list := DoUpgradeEnter(s, u, q), s.table[rid].list;
    if s' != s && q == rid {
      assert QueueOk(s, rid);
      var src := Pos(list, u);
      MoveBackPos(list, src, FirstExclusive(list, src), t);
      assert RequestOk(s, rid, list[src]) && (t == u ==> list[src].mode == Shared);
      assert s'.table[rid].list == MoveBack(list, src, FirstExclusive(list, src));
    }
  }

  lemma ClaimUnlock(s: State, u: nat, q: int, t: nat, rid: int, mode: Mode)
    requires Inv(s) && Enabled(s, Unlock(u, q)) && Claims(s, t, rid, mode)
      && (q != rid || u != t || UnlockRefused(s, t))
    ensures Claims(DoUnlock(s, u, q), t, rid, mode)
  {
    assert QueueOk(s, rid);
    var s', list := DoUnlock(s, u, q), s.table[rid].list;
    var i, k := Pos(list, t), Pos(list, u);
    ClaimsAt(s', t, rid, mode, if q == rid && !UnlockRefused(s, u) && k < i then i - 1 else i);
  }

  /** A claim is given up only by the owner's own, accepted Unlock. */
  lemma ClaimStep(s: State, a: Step, t: nat, rid: int, mode: Mode)
    requires Inv(s) && Enabled(s, a) && Claims(s, t, rid, mode) && !Claims(Next(s, a), t, rid, mode)
    ensures a == Unlock(t, rid) && !UnlockRefused(s, t)
  {
    match a
    case Begin =>
    case Finish(_, _) =>
    case LockEnter(u, q, m) => ClaimEnter(s, u, q, m, t, rid, mode);
    case LockGrant(u) => ClaimGrant(s, u, t, rid, mode);
    case UpgradeEnter(u, q) => ClaimUpgrade(s, u, q, t, rid, mode);
    case Unlock(u, q) => if q != rid || u != t || UnlockRefused(s, t) { ClaimUnlock(s, u, q, t, rid, mode); }
  }

  lemma {:induction false} ReleasedBetween(run: seq<State>, acts: seq<Step>, a: nat, b: nat, t: nat, rid: int,
      mode: Mode)
    returns (u: nat)
    requires IsRun(run, acts) && a <= b < |run|
    requires Claims(run[a], t, rid, mode) && !Claims(run[b], t, rid, mode)
    ensures a <= u < b && acts[u] == Unlock(t, rid) && t < |run[u].txns| && !UnlockRefused(run[u], t)
    decreases b - a
  {
    RunKeeps(run, acts, a);
    assert StepAt(run, acts, a);
    if Claims(run[a + 1], t, rid, mode) {
      u := ReleasedBetween(run, acts, a + 1, b, t, rid, mode);
    } else {
      ClaimStep(run[a], acts[a], t, rid, mode);
      u := a;
    }
  }

  lemma StaysUngrown(s: State, a: Step, t: nat)
    requires Enabled(s, a) && t < |s.txns| && s.txns[t].state != Growing
    ensures t < |Next(s, a).txns| && Next(s, a).txns[t].state != Growing
  {
  }

  /** Once a transaction stops growing it never grows again. */
  lemma {:induction false} NeverGrowsAgain(run: seq<State>, acts: seq<Step>, a: nat, b: nat, t: nat)
    requires IsRun(run, acts) && a <= b < |run| && t < |run[a].txns| && run[a].txns[t].state != Growing
    ensures t < |run[b].txns| && run[b].txns[t].state != Growing
    decreases b - a
  {
    if a < b {
      assert StepAt(run, acts, a);
      StaysUngrown(run[a], acts[a], t);
      NeverGrowsAgain(run, acts, a + 1, b, t);
    }
  }

  /** Two-phase: after its first release a transaction is granted nothing more. */
  lemma TwoPhase(run: seq<State>, acts: seq<Step>, u: nat, i: nat, t: nat, rid: int)
    requires IsRun(run, acts) && u < |acts| && acts[u] == Unlock(t, rid) && t < |run[u].txns|
      && !UnlockRefused(run[u], t)
    requires u <= i < |acts|
    ensures acts[i] != LockGrant(t)
  {
    assert StepAt(run, acts, u) && StepAt(run, acts, i);
    assert run[u + 1].txns[t].state != Growing;
    RunKeeps(run, acts, i);
    if i > u {
      NeverGrowsAgain(run, acts, u + 1, i, t);
      assert TxnOk(run[i], t);
    }
  }

  // ----- overtaken upgraders ----------------------------------------------------------

  /** From step k to step j transaction t sleeps in LockUpgrade on rid; step k grants u an exclusive lock on rid and
      step j grants t its upgrade. */
  ghost predicate Overtakes(run: seq<State>, acts: seq<Step>, t: nat, u: nat, rid: int, k: nat, j: nat) {
    && t != u && k < j && GrantOf(run, acts, k, u, rid, Exclusive) && GrantOf(run, acts, j, t, rid, Exclusive)
    && forall x :: k <= x <= j && x < |run| ==> Upgrading(run[x], t, rid)
  }

  ghost predicate Overtaken(run: seq<State>, acts: seq<Step>) {
    exists t: nat, u: nat, rid, k: nat, j: nat :: Overtakes(run, acts, t, u, rid, k, j)
  }

  /** An upgrader sleeps until it is granted. */
  lemma {:induction false} SleepsUntilGranted(run: seq<State>, acts: seq<Step>, a: nat, b: nat, t: nat, rid: int)
    requires IsRun(run, acts) && a <= b < |run| && Upgrading(run[a], t, rid)
    requires forall x :: a <= x < b ==> acts[x] != LockGrant(t)
    ensures forall x :: a <= x <= b ==> Upgrading(run[x], t, rid)
    decreases b - a
  {
    if a < b {
      assert StepAt(run, acts, a);
      assert Upgrading(run[a + 1], t, rid);
      SleepsUntilGranted(run, acts, a + 1, b, t, rid);
    }
  }

  lemma {:induction false} FirstGrantFrom(acts: seq<Step>, a: nat, b: nat, t: nat) returns (j: nat)
    requires a <= b < |acts| && acts[b] == LockGrant(t)
    ensures a <= j <= b && acts[j] == LockGrant(t) && forall x :: a <= x < j ==> acts[x] != LockGrant(t)
    decreases b - a
  {
    if acts[a] == LockGrant(t) { j := a; } else { j := FirstGrantFrom(acts, a + 1, b, t); }
  }

  /** A claim that stands in the way of a lock granted to another is a sleeping upgrader's. */
  lemma OnlyUpgraderLeft(s: State, t: nat, u: nat, rid: int, m: Mode, n: Mode)
    requires Inv(s) && t != u && Claims(s, t, rid, m) && Holds(s, u, rid, n) && (m == Exclusive || n == Exclusive)
    ensures n == Exclusive && Upgrading(s, t, rid)
  {
    assert QueueOk(s, rid);
    var list := s.table[rid].list;
    var i, j := Pos(list, t), Pos(list, u);
    assert i != j && GrantsOk(list);
  }

  /** Conflicting locks are granted in the order of the lock points, unless a sleeping upgrader is overtaken. */
  lemma LockPointOrder(run: seq<State>, acts: seq<Step>, t: nat, u: nat)
    requires IsRun(run, acts) && Before(run, acts, t, u) && !Overtaken(run, acts)
    ensures LastGrant(acts, t) < LastGrant(acts, u)
  {
    var rid, i: nat, j: nat, m, n :|
      i < j && GrantOf(run, acts, i, t, rid, m) && GrantOf(run, acts, j, u, rid, n)
        && (m == Exclusive || n == Exclusive);
    AfterGrant(run, acts, i, t, rid, m);
    AfterGrant(run, acts, j, u, rid, n);
    RunKeeps(run, acts, j + 1);
    if !Claims(run[j + 1], t, rid, m) {
      var x := ReleasedBetween(run, acts, i + 1, j + 1, t, rid, m);
      forall y | x <= y < |acts| ensures acts[y] != LockGrant(t) { TwoPhase(run, acts, x, y, t, rid); }
    } else {
      OnlyUpgraderLeft(run[j + 1], t, u, rid, m, n);
      assert StepAt(run, acts, j);
      assert Upgrading(run[j], t, rid);
      forall y | j <= y < |acts| ensures acts[y] != LockGrant(t) {
        NeverGranted(run, acts, t, u, rid, j, y);
      }
    }
  }

  lemma NeverGranted(run: seq<State>, acts: seq<Step>, t: nat, u: nat, rid: int, k: nat, y: nat)
    requires IsRun(run, acts) && !Overtaken(run, acts) && t != u && k <= y < |acts|
    requires GrantOf(run, acts, k, u, rid, Exclusive) && Upgrading(run[k], t, rid)
    ensures acts[y] != LockGrant(t)
  {
    if acts[y] == LockGrant(t) {
      var j := FirstGrantFrom(acts, k, y, t);
      SleepsUntilGranted(run, acts, k, j, t, rid);
      assert Overtakes(run, acts, t, u, rid, k, j);
      assert false;
    }
  }

  lemma AfterGrant(run: seq<State>, acts: seq<Step>, i: nat, t: nat, rid: int, mode: Mode)
    requires IsRun(run, acts) && GrantOf(run, acts, i, t, rid, mode)
    ensures Holds(run[i + 1], t, rid, mode)
  {
    RunKeeps(run, acts, i);
    var s, s' := run[i], run[i + 1];
    assert StepAt(run, acts, i);
    assert QueueOk(s, rid);
    var list, list' := s.table[rid].list, s'.table[rid].list;
    var p := Pos(list, t);
    assert RequestOk(s, rid, list[p]);
    assert list'[p].txn == t && forall k :: 0 <= k < p ==> list'[k].txn == list[k].txn;
    assert Pos(list', t) == p;
  }

  lemma NoConflictHeld(run: seq<State>, acts: seq<Step>, b: nat, t: nat, u: nat, rid: int, m: Mode, n: Mode)
    requires IsRun(run, acts) && b < |run| && t != u && Holds(run[b], u, rid, n) && (m == Exclusive || n == Exclusive)
    ensures !Holds(run[b], t, rid, m)
  {
    RunKeeps(run, acts, b);
    assert QueueOk(run[b], rid);
    var list := run[b].table[rid].list;
    assert GrantsOk(list);
    var i, j := Pos(list, t), Pos(list, u);
    if i < |list| { assert i != j; }
  }

  // ----- the conflict graph --------------------------------------------------------------

  ghost predicate ConflictPath(run: seq<State>, acts: seq<Step>, path: seq<nat>) {
    |path| >= 2 && forall i :: 0 <= i < |path| - 1 ==> Before(run, acts, path[i], path[i + 1])
  }

  ghost predicate HasCycle(run: seq<State>, acts: seq<Step>) {
    exists path :: ConflictPath(run, acts, path) && path[0] == path[|path| - 1]
  }

  /** Along a path of the conflict graph the lock points grow. */
  lemma {:induction false} Serializable(run: seq<State>, acts: seq<Step>, path: seq<nat>)
    requires IsRun(run, acts) && !Overtaken(run, acts) && ConflictPath(run, acts, path)
    ensures LastGrant(acts, path[0]) < LastGrant(acts, path[|path| - 1])
    ensures path[0] != path[|path| - 1]
  {
    assert Before(run, acts, path[|path| - 2], path[|path| - 1]);
    LockPointOrder(run, acts, path[|path| - 2], path[|path| - 1]);
    if |path| > 2 {
      var front := path[..|path| - 1];
      forall i | 0 <= i < |front| - 1 ensures Before(run, acts, front[i], front[i + 1]) {
        assert Before(run, acts, path[i], path[i + 1]);
      }
      Serializable(run, acts, front);
    }
  }

  /** What is held was granted. */
  lemma {:induction false} HeldWasGranted(run: seq<State>, acts: seq<Step>, n: nat, t: nat, rid: int, mode: Mode)
    returns (g: nat)
    requires IsRun(run, acts) && n < |run| && Holds(run[n], t, rid, mode)
    ensures g < n && GrantOf(run, acts, g, t, rid, mode)
  {
    RunKeeps(run, acts, n - 1);
    assert StepAt(run, acts, n - 1);
    if Holds(run[n - 1], t, rid, mode) {
      g := HeldWasGranted(run, acts, n - 1, t, rid, mode);
    } else {
      NewlyHeld(run[n - 1], acts[n - 1], t, rid, mode);
      g := n - 1;
    }
  }

  lemma NewlyHeld(s: State, a: Step, t: nat, rid: int, mode: Mode)
    requires Inv(s) && Enabled(s, a) && !Holds(s, t, rid, mode) && Holds(Next(s, a), t, rid, mode)
    ensures a == LockGrant(t) && s.txns[t].blocked.rid == rid && s.txns[t].blocked.mode == mode
  {
    var s' := Next(s, a);
    var list' := s'.table[rid].list;
    var r := list'[Pos(list', t)];
    if rid in s.table {
      assert QueueOk(s, rid);
      NewlyHeldIn(s, a, t, rid, mode);
    }
  }

  lemma NewlyHeldIn(s: State, a: Step, t: nat, rid: int, mode: Mode)
    requires Inv(s) && Enabled(s, a) && rid in s.table && !Holds(s, t, rid, mode) && Holds(Next(s, a), t, rid, mode)
    ensures a == LockGrant(t) && s.txns[t].blocked.rid == rid && s.txns[t].blocked.mode == mode
  {
    assert QueueOk(s, rid);
    var list, list' := s.table[rid].list, Next(s, a).table[rid].list;
    var i' := Pos(list', t);
    if a.LockGrant? && s.txns[a.txn].blocked.rid == rid {
      var k := Pos(list, a.txn);
      assert RequestOk(s, rid, list[k]);
      assert list' == list[k := list[k].(granted := true)];
      PosIs(list, t, i');
    } else {
      KeptRequest(s, a, rid, list'[i']);
    }
  }

  lemma MoveBackGranted(list: seq<Request>, src: nat, tgt: nat, r: Request)
    requires src < |list| && src < tgt <= |list| && r in MoveBack(list, src, tgt) && r.granted
    ensures r in list
  {
    var l := MoveBack(list, src, tgt);
    var j :| 0 <= j < |l| && l[j] == r;
    assert r == list[if j < src || j >= tgt then j else j + 1];
  }

  lemma DropMember(list: seq<Request>, k: nat, r: Request)
    requires k < |list| && r in Drop(list, k)
    ensures r in list
  {
    var l := Drop(list, k);
    var j :| 0 <= j < |l| && l[j] == r;
    assert r == list[if j < k then j else j + 1];
  }

  lemma MemberHolds(s: State, rid: int, r: Request)
    requires Inv(s) && rid in s.table && r in s.table[rid].list && r.granted
    ensures Holds(s, r.txn, rid, r.mode)
  {
    assert QueueOk(s, rid);
    var list := s.table[rid].list;
    var j :| 0 <= j < |list| && list[j] == r;
    PosIs(list, r.txn, j);
  }

  /** A granted request after a step that grants nothing on rid was there before. */
  lemma KeptRequest(s: State, a: Step, rid: int, r: Request)
    requires Inv(s) && Enabled(s, a) && rid in s.table && !(a.LockGrant? && s.txns[a.txn].blocked.rid == rid)
    requires rid in Next(s, a).table && r in Next(s, a).table[rid].list && r.granted
    ensures Holds(s, r.txn, rid, r.mode)
  {
    var list, list' := s.table[rid].list, Next(s, a).table[rid].list;
    match a {
      case UpgradeEnter(u, q) =>
        if q == rid && Next(s, a) != s { MoveBackGranted(list, Pos(list, u), FirstExclusive(list, Pos(list, u)), r); }
      case Unlock(u, q) =>
        if q == rid && !UnlockRefused(s, u) && Pos(list, u) < |list| { DropMember(list, Pos(list, u), r); }
      case LockEnter(u, q, m) => assert list' == list || list' == list + [Request(u, m, false)];
      case _ =>
    }
    MemberHolds(s, rid, r);
  }

  /** A sleeping upgrader was granted its shared lock before. */
  lemma {:induction false} UpgraderWasGranted(run: seq<State>, acts: seq<Step>, n: nat, t: nat, rid: int)
    returns (g: nat)
    requires IsRun(run, acts) && n < |run| && Upgrading(run[n], t, rid)
    ensures g < n && GrantOf(run, acts, g, t, rid, Shared)
  {
    RunKeeps(run, acts, n - 1);
    assert StepAt(run, acts, n - 1);
    var s := run[n - 1];
    if Upgrading(s, t, rid) {
      g := UpgraderWasGranted(run, acts, n - 1, t, rid);
    } else {
      assert acts[n - 1] == UpgradeEnter(t, rid);
      assert QueueOk(s, rid);
      assert RequestOk(s, rid, s.table[rid].list[Pos(s.table[rid].list, t)]);
      g := HeldWasGranted(run, acts, n - 1, t, rid, Shared);
    }
  }

  /** The exact condition, upgrades included: the conflict graph of a run has a cycle if and only if some transaction is
      granted its upgrade after another was granted an exclusive lock on the same record while it slept. */
  lemma CycleExactly(run: seq<State>, acts: seq<Step>)
    requires IsRun(run, acts)
    ensures HasCycle(run, acts) <==> Overtaken(run, acts)
  {
    if Overtaken(run, acts) {
      var t: nat, u: nat, rid, k: nat, j: nat :| Overtakes(run, acts, t, u, rid, k, j);
      var g := UpgraderWasGranted(run, acts, k, t, rid);
      assert GrantOf(run, acts, g, t, rid, Shared) && GrantOf(run, acts, k, u, rid, Exclusive);
      assert Before(run, acts, t, u) && Before(run, acts, u, t);
      var path := [t, u, t];
      assert ConflictPath(run, acts, path) && path[0] == path[|path| - 1];
    } else if path :| ConflictPath(run, acts, path) && path[0] == path[|path| - 1] {
      Serializable(run, acts, path);
      assert false;
    }
  }
}
