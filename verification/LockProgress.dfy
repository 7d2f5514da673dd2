/** Wait-die: in every run in which no shared request slips in behind an older exclusive one, upgrades included, each
  * wait that matters goes from an older to a younger transaction, so the blockers of any sleeper lead to someone who
  * can move. */
module LockProgress {
  import opened LockProtocol
  import opened LockSafety

  // ----- the exclusive counter -----------------------------------------------------

  lemma {:induction false} CountAppend(list: seq<Request>, r: Request)
    ensures CountExclusive(list + [r]) == CountExclusive(list) + if r.mode == Exclusive then 1 else 0
  {
    assert (list + [r])[..|list|] == list;
  }

  lemma {:induction false} CountConcat(a: seq<Request>, b: seq<Request>)
    ensures CountExclusive(a + b) == CountExclusive(a) + CountExclusive(b)
  {
    if b == [] {
      assert a + b == a;
    } else {
      var n := |b| - 1;
      assert a + b == (a + b[..n]) + [b[n]] && b == b[..n] + [b[n]];
      CountAppend(a + b[..n], b[n]);
      CountAppend(b[..n], b[n]);
      CountConcat(a, b[..n]);
    }
  }

  lemma {:induction false} CountThree(a: seq<Request>, r: Request, b: seq<Request>)
    ensures CountExclusive(a + [r] + b) == CountExclusive(a) + CountExclusive(b) + if r.mode == Exclusive then 1 else 0
  {
    CountConcat(a + [r], b);
    CountAppend(a, r);
  }

  lemma {:induction false} CountDrop(list: seq<Request>, i: nat)
    requires i < |list|
    ensures CountExclusive(Drop(list, i)) == CountExclusive(list) - if list[i].mode == Exclusive then 1 else 0
  {
    var a, b := list[..i], list[i + 1..];
    assert list == a + [list[i]] + b;
    CountThree(a, list[i], b);
    CountConcat(a, b);
  }

  lemma {:induction false} CountGrant(list: seq<Request>, i: nat)
    requires i < |list|
    ensures CountExclusive(list[i := list[i].(granted := true)]) == CountExclusive(list)
  {
    var a, r, b := list[..i], list[i].(granted := true), list[i + 1..];
    assert list == a + [list[i]] + b && list[i := r] == a + [r] + b;
    CountThree(a, list[i], b);
    CountThree(a, r, b);
  }

  lemma {:induction false} CountMoveBack(list: seq<Request>, src: nat, tgt: nat)
    requires src < |list| && src < tgt <= |list| && list[src].mode == Shared
    ensures CountExclusive(MoveBack(list, src, tgt)) == CountExclusive(list) + 1
  {
    var a, x, b, c := list[..src], Request(list[src].txn, Exclusive, false), list[src + 1..tgt], list[tgt..];
    assert list == a + [list[src]] + (b + c) && MoveBack(list, src, tgt) == (a + b) + [x] + c;
    CountThree(a, list[src], b + c);
    CountThree(a + b, x, c);
    CountConcat(b, c);
    CountConcat(a, b);
  }

  /** The step moves a request to the exclusive part of rid's queue without counting it. */
  ghost predicate UpgradesOn(s: State, a: Step, rid: int)
    requires Enabled(s, a)
  {
    a.UpgradeEnter? && a.rid == rid && Next(s, a) != s
  }

  ghost function Upgrades(run: seq<State>, acts: seq<Step>, rid: int, n: nat): nat
    requires IsRun(run, acts) && n <= |acts|
  {
    if n == 0 then 0
    else
      assert StepAt(run, acts, n - 1);
      Upgrades(run, acts, rid, n - 1) + if UpgradesOn(run[n - 1], acts[n - 1], rid) then 1 else 0
  }

  /** c is n - missing, modulo the width of size_t. */
  ghost predicate Counted(c: nat, missing: int, n: nat) {
    c < SIZE_T && (c + missing - n) % SIZE_T == 0
  }

  lemma CountedMoves(c: nat, missing: int, n: nat)
    requires Counted(c, missing, n)
    ensures Counted(Inc(c), missing, n + 1) && Counted(c, missing + 1, n + 1)
    ensures n > 0 ==> Counted(Dec(c), missing, n - 1)
  {
  }

  ghost predicate QueueCounted(s: State, rid: int, missing: int) {
    rid in s.table && Counted(s.table[rid].exclusiveCnt, missing, CountExclusive(s.table[rid].list))
  }

  lemma {:induction false} CountUnlock(s: State, t: nat, q: int, rid: int, missing: int)
    requires Enabled(s, Unlock(t, q)) && QueueCounted(s, rid, missing)
    ensures QueueCounted(DoUnlock(s, t, q), rid, missing)
  {
    var w := s.table[rid];
    if q == rid && Pos(w.list, t) < |w.list| {
      CountDrop(w.list, Pos(w.list, t));
      CountedMoves(w.exclusiveCnt, missing, CountExclusive(w.list));
    }
  }

  lemma {:induction false} CountEnter(s: State, t: nat, q: int, mode: Mode, rid: int, missing: int)
    requires Enabled(s, LockEnter(t, q, mode)) && QueueCounted(s, rid, missing)
    ensures QueueCounted(DoLockEnter(s, t, q, mode), rid, missing)
  {
    var s' := DoLockEnter(s, t, q, mode);
    if q == rid && s'.table != s.table {
      CountJoined(s.table[rid], s'.table[rid], t, mode, missing);
    }
  }

  lemma CountJoined(w: Waiting, w': Waiting, t: nat, mode: Mode, missing: int)
    requires Counted(w.exclusiveCnt, missing, CountExclusive(w.list)) && w'.list == w.list + [Request(t, mode, false)]
    requires w'.exclusiveCnt == if mode == Exclusive then Inc(w.exclusiveCnt) else w.exclusiveCnt
    ensures Counted(w'.exclusiveCnt, missing, CountExclusive(w'.list))
  {
    CountAppend(w.list, Request(t, mode, false));
    CountedMoves(w.exclusiveCnt, missing, CountExclusive(w.list));
  }

  /** An upgrade that is not refused puts the transaction to sleep and moves its request back. */
  lemma UpgradeMoves(s: State, t: nat, q: int, rid: int)
    requires Enabled(s, UpgradeEnter(t, q)) && rid in s.table
    ensures UpgradesOn(s, UpgradeEnter(t, q), rid) <==>
      q == rid && s.txns[t].state != Aborted && !UpgradeDies(s.table[q].list, t)
    ensures var w, s' := s.table[rid], DoUpgradeEnter(s, t, q);
      rid in s'.table && s'.table[rid] ==
        if UpgradesOn(s, UpgradeEnter(t, q), rid)
        then w.(list := MoveBack(w.list, Pos(w.list, t), FirstExclusive(w.list, Pos(w.list, t)))) else w
  {
    var s' := DoUpgradeEnter(s, t, q);
    assert s' != s ==> s'.txns[t].blocked.Awaits?;
  }

  lemma {:induction false} CountUpgrade(s: State, t: nat, q: int, rid: int, missing: int)
    requires Enabled(s, UpgradeEnter(t, q)) && QueueCounted(s, rid, missing)
    ensures QueueCounted(DoUpgradeEnter(s, t, q), rid,
      missing + if UpgradesOn(s, UpgradeEnter(t, q), rid) then 1 else 0)
  {
    UpgradeMoves(s, t, q, rid);
    if UpgradesOn(s, UpgradeEnter(t, q), rid) { CountMovedBack(s.table[rid], Pos(s.table[rid].list, t), missing); }
  }

  lemma CountMovedBack(w: Waiting, src: nat, missing: int)
    requires src < |w.list| && w.list[src].mode == Shared && Counted(w.exclusiveCnt, missing, CountExclusive(w.list))
    ensures Counted(w.exclusiveCnt, missing + 1, CountExclusive(MoveBack(w.list, src, FirstExclusive(w.list, src))))
  {
    CountMoveBack(w.list, src, FirstExclusive(w.list, src));
    CountedMoves(w.exclusiveCnt, missing, CountExclusive(w.list));
  }

  lemma {:induction false} CountStep(s: State, a: Step, rid: int, missing: int)
    requires Enabled(s, a) && QueueCounted(s, rid, missing)
    ensures QueueCounted(Next(s, a), rid, missing + if UpgradesOn(s, a, rid) then 1 else 0)
  {
    match a
    case Begin =>
    case Finish(_, _) =>
    case LockEnter(t, q, mode) => CountEnter(s, t, q, mode, rid, missing);
    case LockGrant(t) => if s.txns[t].blocked.rid == rid { CountGrant(s.table[rid].list, Pos(s.table[rid].list, t)); }
    case UpgradeEnter(t, q) => CountUpgrade(s, t, q, rid, missing);
    case Unlock(t, q) => CountUnlock(s, t, q, rid, missing);
  }

  lemma FirstCounted(s: State, a: Step, rid: int)
    requires Enabled(s, a) && rid !in s.table && rid in Next(s, a).table
    ensures QueueCounted(Next(s, a), rid, 0) && !UpgradesOn(s, a, rid)
  {
    var list := Next(s, a).table[rid].list;
    assert list[..0] == [];
  }

  lemma CountedAfter(s: State, a: Step, s': State, rid: int, missing: int)
    requires Enabled(s, a) && s' == Next(s, a) && rid in s'.table
    requires if rid in s.table then QueueCounted(s, rid, missing) else missing == 0
    ensures QueueCounted(s', rid, missing + if UpgradesOn(s, a, rid) then 1 else 0)
  {
    if rid in s.table { CountStep(s, a, rid, missing); } else { FirstCounted(s, a, rid); }
  }

  lemma {:induction false} CountedAt(run: seq<State>, acts: seq<Step>, n: nat, rid: int)
    requires IsRun(run, acts) && 0 < n < |run| && rid in run[n].table
    requires if rid in run[n - 1].table then QueueCounted(run[n - 1], rid, Upgrades(run, acts, rid, n - 1))
             else Upgrades(run, acts, rid, n - 1) == 0
    ensures QueueCounted(run[n], rid, Upgrades(run, acts, rid, n))
  {
    assert StepAt(run, acts, n - 1);
    CountedAfter(run[n - 1], acts[n - 1], run[n], rid, Upgrades(run, acts, rid, n - 1));
  }

  /** The law of the counter, upgrades included: modulo the width of size_t, exclusive_cnt falls
      short of the queued exclusive requests by the number of upgrades ever made on the record. */
  lemma {:induction false} ExclusiveCountLaw(run: seq<State>, acts: seq<Step>, n: nat, rid: int)
    requires IsRun(run, acts) && n < |run| && rid in run[n].table
    ensures QueueCounted(run[n], rid, Upgrades(run, acts, rid, n))
  {
    if rid in run[n - 1].table {
      ExclusiveCountLaw(run, acts, n - 1, rid);
    } else {
      NoUpgradeBefore(run, acts, n - 1, rid);
    }
    CountedAt(run, acts, n, rid);
  }

  lemma {:induction false} NoUpgradeBefore(run: seq<State>, acts: seq<Step>, n: nat, rid: int)
    requires IsRun(run, acts) && n < |run| && rid !in run[n].table
    ensures Upgrades(run, acts, rid, n) == 0
  {
    if n > 0 {
      assert StepAt(run, acts, n - 1);
      NoUpgradeBefore(run, acts, n - 1, rid);
    }
  }

  // ----- wait-die --------------------------------------------------------------------

  /** `oldest` is a lower bound, and a request that conflicts with an earlier one is older than it. */
  ghost predicate WaitDie(w: Waiting) {
    && (forall i :: 0 <= i < |w.list| ==> w.oldest <= w.list[i].txn)
    && (forall i, j :: 0 <= i < j < |w.list| && (w.list[i].mode == Exclusive || w.list[j].mode == Exclusive) ==>
          w.list[j].txn < w.list[i].txn)
  }

  lemma {:induction false} DistinctBound(list: seq<Request>, n: nat)
    requires Distinct(list) && forall i :: 0 <= i < |list| ==> list[i].txn < n
    ensures |list| <= n
  {
    if |list| > 0 {
      assert list[0].txn < n;
      var p := Pos(list, n - 1);
      DistinctBound(if p < |list| then Drop(list, p) else list, n - 1);
    }
  }

  lemma {:induction false} CountPositive(list: seq<Request>, i: nat)
    requires i < |list| && list[i].mode == Exclusive
    ensures CountExclusive(list) > 0
  {
    if i < |list| - 1 { CountPositive(list[..|list| - 1], i); }
  }

  /** Without upgrades the counter is the number of queued exclusive requests. */
  lemma {:induction false} CountExact(run: seq<State>, acts: seq<Step>, n: nat, rid: int)
    requires IsRun(run, acts) && NoUpgrade(acts) && n < |run| && rid in run[n].table
    ensures run[n].table[rid].exclusiveCnt == CountExclusive(run[n].table[rid].list)
  {
    RunKeeps(run, acts, n);
    assert QueueOk(run[n], rid);
    var w := run[n].table[rid];
    forall i | 0 <= i < |w.list| ensures w.list[i].txn < |run[n].txns| { assert RequestOk(run[n], rid, w.list[i]); }
    DistinctBound(w.list, |run[n].txns|);
    ExclusiveCountLaw(run, acts, n, rid);
    NoUpgradesCounted(run, acts, rid, n);
  }

  lemma {:induction false} NoUpgradesCounted(run: seq<State>, acts: seq<Step>, rid: int, n: nat)
    requires IsRun(run, acts) && NoUpgrade(acts) && n < |run|
    ensures Upgrades(run, acts, rid, n) == 0
  {
    if n > 0 { NoUpgradesCounted(run, acts, rid, n - 1); }
  }

  /** The step lets a shared request join behind an exclusive request of an older transaction. The code does so only
    * when exclusive_cnt is zero although an exclusive request is queued, which takes an upgrade. */
  ghost predicate SlipsIn(s: State, a: Step)
    requires Enabled(s, a)
  {
    && a.LockEnter? && a.mode == Shared && a.rid in s.table && Next(s, a).table != s.table
    && var list := s.table[a.rid].list;
       exists i :: 0 <= i < |list| && list[i].mode == Exclusive && list[i].txn < a.txn
  }

  ghost predicate NoneSlipsIn(run: seq<State>, acts: seq<Step>)
    requires IsRun(run, acts)
  {
    forall i {:trigger StepAt(run, acts, i)} :: 0 <= i < |acts| ==> StepAt(run, acts, i) && !SlipsIn(run[i], acts[i])
  }

  /** What an admitted request does to its queue. */
  lemma Joined(s: State, t: nat, rid: int, mode: Mode)
    requires Enabled(s, LockEnter(t, rid, mode)) && rid in s.table
    ensures var w, w' := s.table[rid], DoLockEnter(s, t, rid, mode).table[rid];
      if DoLockEnter(s, t, rid, mode).table == s.table then w' == w
      else
        && w'.list == w.list + [Request(t, mode, false)] && w'.oldest == (if t < w.oldest then t else w.oldest)
        && (mode == Exclusive ==> t <= w.oldest)
        && forall i :: 0 <= i < |w.list| ==> w.list[i].txn != t
  {
    var w, s' := s.table[rid], DoLockEnter(s, t, rid, mode);
    if s'.table != s.table {
      assert Pos(w.list, t) == |w.list|;
    } else if s'.table[rid] != w {
      assert false;
    }
  }

  /** Lock requests keep wait-die exactly when no shared request slips in behind an older transaction's exclusive
    * one. */
  lemma WaitDieEnterExact(s: State, t: nat, rid: int, mode: Mode)
    requires Enabled(s, LockEnter(t, rid, mode)) && rid in s.table && WaitDie(s.table[rid])
    ensures WaitDie(DoLockEnter(s, t, rid, mode).table[rid]) <==> !SlipsIn(s, LockEnter(t, rid, mode))
  {
    Joined(s, t, rid, mode);
    var w, s' := s.table[rid], DoLockEnter(s, t, rid, mode);
    if s'.table != s.table {
      JoinedExact(w, s'.table[rid], t, mode);
    }
  }

  lemma JoinedExact(w: Waiting, w': Waiting, t: nat, mode: Mode)
    requires WaitDie(w) && w'.list == w.list + [Request(t, mode, false)]
      && w'.oldest == (if t < w.oldest then t else w.oldest)
    requires mode == Exclusive ==> t <= w.oldest
    requires forall i :: 0 <= i < |w.list| ==> w.list[i].txn != t
    ensures WaitDie(w') <==>
      !(mode == Shared && exists i :: 0 <= i < |w.list| && w.list[i].mode == Exclusive && w.list[i].txn < t)
  {
    var n := |w.list|;
    assert w'.list[n] == Request(t, mode, false) && forall i :: 0 <= i < n ==> w'.list[i] == w.list[i];
    if i :| 0 <= i < n && w.list[i].mode == Exclusive && w.list[i].txn < t {
      assert mode == Shared ==> !(w'.list[n].txn < w'.list[i].txn);
    }
  }

  /** An upgrade keeps wait-die: it is refused unless its transaction is older than all those it waits for. */
  lemma WaitDieUpgrade(s: State, t: nat, q: int, rid: int)
    requires Inv(s) && Enabled(s, UpgradeEnter(t, q)) && rid in s.table && WaitDie(s.table[rid])
    ensures rid in DoUpgradeEnter(s, t, q).table && WaitDie(DoUpgradeEnter(s, t, q).table[rid])
  {
    UpgradeMoves(s, t, q, rid);
    if UpgradesOn(s, UpgradeEnter(t, q), rid) {
      assert QueueOk(s, rid);
      MoveBackOrdered(s.table[rid], Pos(s.table[rid].list, t));
    }
  }

  lemma MoveBackOrdered(w: Waiting, src: nat)
    requires WaitDie(w) && Distinct(w.list) && src < |w.list| && w.list[src].mode == Shared
    requires forall i :: 0 <= i < FirstExclusive(w.list, src) ==> w.list[src].txn <= w.list[i].txn
    ensures WaitDie(w.(list := MoveBack(w.list, src, FirstExclusive(w.list, src))))
  {
    var list, tgt := w.list, FirstExclusive(w.list, src);
    var l := MoveBack(list, src, tgt);
    forall i, j | 0 <= i < j < |l| && (l[i].mode == Exclusive || l[j].mode == Exclusive) ensures l[j].txn < l[i].txn {
      if i == tgt - 1 {
        BehindUpgrade(w, src, j);
      } else {
        assert l[i] == list[if i < src || i >= tgt then i else i + 1];
        assert j != tgt - 1 ==> l[j] == list[if j < src || j >= tgt then j else j + 1];
      }
    }
    forall i | 0 <= i < |l| ensures w.oldest <= l[i].txn {
      assert l[i].txn == list[if i < src || i >= tgt then i else if i == tgt - 1 then src else i + 1].txn;
    }
  }

  /** What stands behind the first exclusive request is older than a shared one ahead of it. */
  lemma BehindUpgrade(w: Waiting, src: nat, j: nat)
    requires WaitDie(w) && src < |w.list| && w.list[src].mode == Shared && FirstExclusive(w.list, src) <= j < |w.list|
    ensures w.list[j].txn < w.list[src].txn
  {
    var tgt := FirstExclusive(w.list, src);
    assert w.list[tgt].txn < w.list[src].txn;
    assert j > tgt ==> w.list[j].txn < w.list[tgt].txn;
  }

  lemma WaitDieStep(s: State, a: Step, rid: int)
    requires Inv(s) && Enabled(s, a) && !SlipsIn(s, a) && rid in s.table && WaitDie(s.table[rid])
    ensures rid in Next(s, a).table && WaitDie(Next(s, a).table[rid])
  {
    match a
    case LockEnter(t, q, mode) => if q == rid { WaitDieEnterExact(s, t, q, mode); }
    case UpgradeEnter(t, q) => WaitDieUpgrade(s, t, q, rid);
    case Unlock(t, q) => WaitDieUnlock(s, t, q, rid);
    case LockGrant(t) => WaitDieGrant(s, t, rid);
    case _ =>
  }

  lemma WaitDieUnlock(s: State, t: nat, q: int, rid: int)
    requires Enabled(s, Unlock(t, q)) && rid in s.table && WaitDie(s.table[rid])
    ensures WaitDie(DoUnlock(s, t, q).table[rid])
  {
    var list := s.table[rid].list;
    if q == rid && Pos(list, t) < |list| { DropOrdered(s.table[rid], Pos(list, t)); }
  }

  lemma WaitDieGrant(s: State, t: nat, rid: int)
    requires Enabled(s, LockGrant(t)) && rid in s.table && WaitDie(s.table[rid])
    ensures WaitDie(DoLockGrant(s, t).table[rid])
  {
  }

  lemma DropOrdered(w: Waiting, i: nat)
    requires WaitDie(w) && i < |w.list|
    ensures WaitDie(w.(list := Drop(w.list, i)))
  {
  }

  /** Wait-die holds in every state of every run in which no shared request slips in, upgrades included. */
  lemma {:induction false} WaitDieAlways(run: seq<State>, acts: seq<Step>, n: nat, rid: int)
    requires IsRun(run, acts) && NoneSlipsIn(run, acts) && n < |run| && rid in run[n].table
    ensures WaitDie(run[n].table[rid])
  {
    var s, a := run[n - 1], acts[n - 1];
    assert StepAt(run, acts, n - 1);
    if rid in s.table {
      WaitDieAlways(run, acts, n - 1, rid);
      RunKeeps(run, acts, n - 1);
      WaitDieStep(s, a, rid);
    }
  }

  /** Without upgrades nothing slips in: the counter then tells whether an exclusive request is queued. */
  lemma NoUpgradeNoneSlipsIn(run: seq<State>, acts: seq<Step>)
    requires IsRun(run, acts) && NoUpgrade(acts)
    ensures NoneSlipsIn(run, acts)
  {
    forall i | 0 <= i < |acts| ensures StepAt(run, acts, i) && !SlipsIn(run[i], acts[i]) {
      NoUpgradeStep(run, acts, i);
    }
  }

  lemma {:induction false} NoUpgradeStep(run: seq<State>, acts: seq<Step>, i: nat)
    requires IsRun(run, acts) && NoUpgrade(acts) && i < |acts|
    ensures StepAt(run, acts, i) && !SlipsIn(run[i], acts[i])
  {
    assert StepAt(run, acts, i);
    if SlipsIn(run[i], acts[i]) {
      var rid := acts[i].rid;
      var w := run[i].table[rid];
      var k :| 0 <= k < |w.list| && w.list[k].mode == Exclusive && w.list[k].txn < acts[i].txn;
      CountExact(run, acts, i, rid);
      CountPositive(w.list, k);
      OldestBelow(run, acts, i, rid);
      assert false;
    }
  }

  /** `oldest` is a lower bound in every state of every run. */
  lemma {:induction false} OldestBelow(run: seq<State>, acts: seq<Step>, n: nat, rid: int)
    requires IsRun(run, acts) && n < |run| && rid in run[n].table
    ensures OldestIsBelow(run[n].table[rid])
  {
    assert StepAt(run, acts, n - 1);
    if rid in run[n - 1].table {
      OldestBelow(run, acts, n - 1, rid);
      OldestStep(run[n - 1], acts[n - 1], rid);
    }
  }

  ghost predicate OldestIsBelow(w: Waiting) {
    forall j :: 0 <= j < |w.list| ==> w.oldest <= w.list[j].txn
  }

  lemma OldestJoined(s: State, t: nat, rid: int, mode: Mode)
    requires Enabled(s, LockEnter(t, rid, mode)) && rid in s.table && OldestIsBelow(s.table[rid])
    ensures OldestIsBelow(DoLockEnter(s, t, rid, mode).table[rid])
  {
    Joined(s, t, rid, mode);
  }

  lemma OldestUpgraded(s: State, t: nat, q: int, rid: int)
    requires Enabled(s, UpgradeEnter(t, q)) && rid in s.table && OldestIsBelow(s.table[rid])
    ensures rid in DoUpgradeEnter(s, t, q).table && OldestIsBelow(DoUpgradeEnter(s, t, q).table[rid])
  {
    UpgradeMoves(s, t, q, rid);
  }

  lemma OldestUnlocked(s: State, t: nat, q: int, rid: int)
    requires Enabled(s, Unlock(t, q)) && rid in s.table && OldestIsBelow(s.table[rid])
    ensures OldestIsBelow(DoUnlock(s, t, q).table[rid])
  {
  }

  lemma OldestStep(s: State, a: Step, rid: int)
    requires Enabled(s, a) && rid in s.table && OldestIsBelow(s.table[rid])
    ensures rid in Next(s, a).table && OldestIsBelow(Next(s, a).table[rid])
  {
    match a
    case LockEnter(t, q, mode) => if q == rid { OldestJoined(s, t, q, mode); }
    case UpgradeEnter(t, q) => OldestUpgraded(s, t, q, rid);
    case Unlock(t, q) => OldestUnlocked(s, t, q, rid);
    case _ =>
  }

  // ----- progress ----------------------------------------------------------------------

  ghost predicate CanMove(s: State, t: nat) {
    Sleeps(s, t) ==> Enabled(s, LockGrant(t))
  }

  /** u is ahead of t in the queue t sleeps on, and stands in its way. */
  ghost predicate Blocks(s: State, u: nat, t: nat) {
    && Sleeps(s, t)
    && var list := s.table[s.txns[t].blocked.rid].list;
       var i, j := Pos(list, u), Pos(list, t);
       i < j && (list[i].mode == Exclusive || list[j].mode == Exclusive || !list[i].granted)
  }

  /** Each transaction on the path is blocked by the next one. */
  ghost predicate BlockPath(s: State, path: seq<nat>) {
    forall i :: 0 <= i < |path| - 1 ==> Blocks(s, path[i + 1], path[i])
  }

  ghost predicate Orderly(s: State) {
    Inv(s) && forall rid :: rid in s.table ==> WaitDie(s.table[rid])
  }

  /** A sleeper that cannot move is blocked by a younger transaction, or directly by one that can. */
  lemma NextBlocker(s: State, t: nat) returns (u: nat)
    requires Orderly(s) && Sleeps(s, t) && !CanMove(s, t)
    ensures Blocks(s, u, t) && u < |s.txns| && (t < u || CanMove(s, u))
  {
    var rid := s.txns[t].blocked.rid;
    var list := s.table[rid].list;
    var j := Pos(list, t);
    assert QueueOk(s, rid) && RequestOk(s, rid, list[j]);
    if list[j].mode == Exclusive {
      u := BlockerAt(s, t, 0);
    } else if i :| 0 <= i < j && list[i].mode == Exclusive {
      u := BlockerAt(s, t, i);
    } else {
      u := SharedBlocker(s, t);
    }
  }

  /** Behind shared requests only, a shared one waits for the first that is not granted, and that one can move. */
  lemma SharedBlocker(s: State, t: nat) returns (u: nat)
    requires Orderly(s) && Sleeps(s, t) && !CanMove(s, t) && s.txns[t].blocked.mode == Shared
    requires var list := s.table[s.txns[t].blocked.rid].list;
      forall i :: 0 <= i < Pos(list, t) ==> list[i].mode == Shared
    ensures Blocks(s, u, t) && u < |s.txns| && CanMove(s, u)
  {
    var list := s.table[s.txns[t].blocked.rid].list;
    var i := FirstUngranted(list, Pos(list, t));
    u := BlockerAt(s, t, i);
    assert Ready(list, u, Shared);
  }

  lemma BlockerAt(s: State, t: nat, i: nat) returns (u: nat)
    requires Orderly(s) && Sleeps(s, t)
    requires var list := s.table[s.txns[t].blocked.rid].list; var j := Pos(list, t);
      i < j && (list[i].mode == Exclusive || list[j].mode == Exclusive || !list[i].granted)
    ensures var list := s.table[s.txns[t].blocked.rid].list; var j := Pos(list, t);
      && u == list[i].txn && Pos(list, u) == i && Blocks(s, u, t) && u < |s.txns|
      && (list[i].mode == Exclusive || list[j].mode == Exclusive ==> t < u)
      && (!list[i].granted ==>
         && s.txns[u].blocked.Awaits? && s.txns[u].blocked.rid == s.txns[t].blocked.rid
         && s.txns[u].blocked.mode == list[i].mode)
  {
    var rid := s.txns[t].blocked.rid;
    assert QueueOk(s, rid) && WaitDie(s.table[rid]);
    var list := s.table[rid].list;
    u := list[i].txn;
    PosIs(list, u, i);
    assert RequestOk(s, rid, list[i]);
  }

  lemma FirstUngranted(list: seq<Request>, j: nat) returns (i: nat)
    requires j <= |list| && exists k :: 0 <= k < j && !list[k].granted
    ensures i < j && !list[i].granted && forall k :: 0 <= k < i ==> list[k].granted
  {
    i := 0;
    while list[i].granted
      invariant i < j && forall k :: 0 <= k < i ==> list[k].granted
      invariant exists k :: i <= k < j && !list[k].granted
      decreases j - i
    {
      i := i + 1;
    }
  }

  /** From any sleeper, following blockers reaches a transaction that can move. */
  lemma {:induction false} SomeoneMoves(s: State, t: nat) returns (path: seq<nat>)
    requires Orderly(s) && t < |s.txns|
    ensures |path| > 0 && path[0] == t && BlockPath(s, path) && CanMove(s, path[|path| - 1])
    decreases |s.txns| - t
  {
    if CanMove(s, t) {
      path := [t];
    } else {
      var u := NextBlocker(s, t);
      if CanMove(s, u) {
        path := [t, u];
      } else {
        var rest := SomeoneMoves(s, u);
        path := [t] + rest;
      }
    }
  }

  /** No deadlock: progress in every state of every run in which no shared request slips in, upgrades included. */
  lemma Progress(run: seq<State>, acts: seq<Step>, n: nat, t: nat) returns (path: seq<nat>)
    requires IsRun(run, acts) && NoneSlipsIn(run, acts) && n < |run| && t < |run[n].txns|
    ensures |path| > 0 && path[0] == t && BlockPath(run[n], path) && CanMove(run[n], path[|path| - 1])
  {
    RunKeeps(run, acts, n);
    forall rid | rid in run[n].table ensures WaitDie(run[n].table[rid]) { WaitDieAlways(run, acts, n, rid); }
    path := SomeoneMoves(run[n], t);
  }
}
