/** What a transaction's state, its lock sets and the answers of the lock manager say about the steps made so far. */
module LockHistory {
  import opened LockProtocol
  import opened LockSafety
  import opened LockSerial

  // ----- the state of a transaction ---------------------------------------------------

  /** Step i ends transaction t: it commits or aborts, it is turned away from a lock, or it unlocks too early for strict
      two-phase locking. */
  ghost predicate Ends(run: seq<State>, acts: seq<Step>, i: nat, t: nat)
    requires i < |acts| && |run| == |acts| + 1
  {
    match acts[i]
    case Finish(u, _) => u == t
    case LockEnter(u, _, _) => u == t && TurnedAway(run, acts, i)
    case Unlock(u, _) => u == t && run[0].strict
    case _ => false
  }

  /** The lock call at step i returns false instead of waiting. */
  ghost predicate TurnedAway(run: seq<State>, acts: seq<Step>, i: nat)
    requires i < |acts| && |run| == |acts| + 1
  {
    acts[i].LockEnter? && acts[i].txn < |run[i + 1].txns| && run[i + 1].txns[acts[i].txn].blocked == Running
  }

  ghost predicate Ended(run: seq<State>, acts: seq<Step>, n: nat, t: nat)
    requires n < |run| == |acts| + 1
  {
    exists i: nat {:trigger Ends(run, acts, i, t)} :: i < n && Ends(run, acts, i, t)
  }

  ghost predicate Unlocks(acts: seq<Step>, i: nat, t: nat)
    requires i < |acts|
  {
    acts[i].Unlock? && acts[i].txn == t
  }

  /** Transaction t has unlocked something. */
  ghost predicate Released(acts: seq<Step>, n: nat, t: nat)
    requires n <= |acts|
  {
    exists i: nat {:trigger Unlocks(acts, i, t)} :: i < n && Unlocks(acts, i, t)
  }

  /** Step i commits t and no later one aborts it. */
  ghost predicate CommitsLast(acts: seq<Step>, n: nat, t: nat, i: nat)
    requires n <= |acts|
  {
    i < n && acts[i] == Finish(t, true) && forall j :: i < j < n ==> acts[j] != Finish(t, false)
  }

  ghost predicate HasCommitted(acts: seq<Step>, n: nat, t: nat)
    requires n <= |acts|
  {
    exists i: nat :: CommitsLast(acts, n, t, i)
  }

  lemma {:induction false} NotYet(run: seq<State>, acts: seq<Step>, n: nat, t: nat)
    requires IsRun(run, acts) && n < |run| && t >= |run[n].txns|
    ensures forall i :: 0 <= i < n ==> acts[i].Begin? || acts[i].txn != t
  {
    if n > 0 {
      assert StepAt(run, acts, n - 1);
      NotYet(run, acts, n - 1, t);
    }
  }

  lemma {:induction false} SameMode(run: seq<State>, acts: seq<Step>, n: nat)
    requires IsRun(run, acts) && n < |run|
    ensures run[n].strict == run[0].strict
  {
    if n > 0 {
      assert StepAt(run, acts, n - 1);
      SameMode(run, acts, n - 1);
    }
  }

  lemma EndedStep(run: seq<State>, acts: seq<Step>, n: nat, t: nat)
    requires n + 1 < |run| == |acts| + 1
    ensures Ended(run, acts, n + 1, t) <==> Ended(run, acts, n, t) || Ends(run, acts, n, t)
    ensures Released(acts, n + 1, t) <==> Released(acts, n, t) || Unlocks(acts, n, t)
  {
  }

  lemma CommittedStep(acts: seq<Step>, n: nat, t: nat)
    requires n < |acts|
    ensures HasCommitted(acts, n + 1, t) <==>
      acts[n] == Finish(t, true) || (HasCommitted(acts, n, t) && acts[n] != Finish(t, false))
  {
    if acts[n] == Finish(t, true) { assert CommitsLast(acts, n + 1, t, n); }
    if HasCommitted(acts, n, t) && acts[n] != Finish(t, false) {
      var i: nat :| CommitsLast(acts, n, t, i);
      assert CommitsLast(acts, n + 1, t, i);
    }
    var m := n + 1;
    if i: nat :| CommitsLast(acts, m, t, i) && i < n { assert CommitsLast(acts, n, t, i); }
  }

  /** A state fits what has happened. */
  ghost predicate StateFits(st: TxnState, ended: bool, released: bool, committed: bool) {
    match st
    case Growing => !ended && !released
    case Shrinking => !ended && released
    case Committed => ended && committed
    case Aborted => ended && !committed
  }

  lemma StateStep(s: State, a: Step, t: nat, ended: bool, released: bool, committed: bool)
    requires Inv(s) && Enabled(s, a) && t < |s.txns| && StateFits(s.txns[t].state, ended, released, committed)
    requires (committed ==> ended) && (s.strict && released ==> ended)
    ensures var mine, away := !a.Begin? && a.txn == t, Next(s, a).txns[t].blocked == Running;
      StateFits(Next(s, a).txns[t].state,
        ended || (mine && (a.Finish? || (a.LockEnter? && away) || (a.Unlock? && s.strict))),
        released || (mine && a.Unlock?),
        (mine && a.Finish? && a.commit) || (committed && !(mine && a.Finish?)))
  {
  }

  /** The state of every transaction in every run, by what has happened to it. */
  lemma {:induction false} StateIs(run: seq<State>, acts: seq<Step>, n: nat, t: nat)
    requires IsRun(run, acts) && n < |run| && t < |run[n].txns|
    ensures StateFits(run[n].txns[t].state, Ended(run, acts, n, t), Released(acts, n, t), HasCommitted(acts, n, t))
    ensures HasCommitted(acts, n, t) ==> Ended(run, acts, n, t)
    ensures run[0].strict && Released(acts, n, t) ==> Ended(run, acts, n, t)
  {
    var m := n - 1;
    assert StepAt(run, acts, m);
    if t < |run[m].txns| {
      StateIs(run, acts, m, t);
      RunKeeps(run, acts, m);
      SameMode(run, acts, m);
      StateStep(run[m], acts[m], t, Ended(run, acts, m, t), Released(acts, m, t), HasCommitted(acts, m, t));
      EndedStep(run, acts, m, t);
      CommittedStep(acts, m, t);
    } else {
      NotYet(run, acts, m, t);
      assert acts[m].Begin?;
      forall i: nat | i < n ensures !Ends(run, acts, i, t) && !Unlocks(acts, i, t) && !CommitsLast(acts, n, t, i) {
        assert acts[i].Begin? || acts[i].txn != t;
      }
    }
  }

  // ----- Unlock ------------------------------------------------------------------------

  /** The requests of the other transactions, in order. */
  function Others(list: seq<Request>, t: nat): seq<Request> {
    if list == [] then []
    else if list[0].txn == t then Others(list[1..], t)
    else [list[0]] + Others(list[1..], t)
  }

  lemma {:induction false} OthersAll(list: seq<Request>, t: nat)
    requires forall i :: 0 <= i < |list| ==> list[i].txn != t
    ensures Others(list, t) == list
  {
    if list != [] { OthersAll(list[1..], t); }
  }

  lemma {:induction false} OthersConcat(a: seq<Request>, b: seq<Request>, t: nat)
    ensures Others(a + b, t) == Others(a, t) + Others(b, t)
  {
    if a == [] {
      assert a + b == b;
    } else {
      OthersConcat(a[1..], b, t);
      assert (a + b)[1..] == a[1..] + b;
    }
  }

  lemma OthersDrop(list: seq<Request>, t: nat)
    requires Distinct(list)
    ensures Others(list, t) == if Pos(list, t) < |list| then Drop(list, Pos(list, t)) else list
  {
    var p := Pos(list, t);
    if p < |list| {
      var a, b := list[..p], list[p + 1..];
      assert list == a + ([list[p]] + b);
      OthersConcat(a, [list[p]] + b, t);
      assert ([list[p]] + b)[1..] == b;
      OthersAll(a, t);
      OthersAll(b, t);
    } else {
      OthersAll(list, t);
    }
  }

  lemma {:induction false} OthersHasNone(list: seq<Request>, t: nat)
    ensures forall r :: r in Others(list, t) <==> r in list && r.txn != t
  {
    if list != [] {
      OthersHasNone(list[1..], t);
      assert list == [list[0]] + list[1..];
    }
  }

  /** Strict two-phase locking accepts an Unlock exactly if its transaction has committed or been aborted by then, by
    * its manager, by a lock call that was turned away or by an earlier Unlock; without it every Unlock is accepted.
    * A refused Unlock leaves the lock table alone; an accepted one takes the transaction out of that queue and
    * changes no other request. */
  lemma UnlockExactly(run: seq<State>, acts: seq<Step>, n: nat, t: nat, rid: int)
    requires IsRun(run, acts) && n < |acts| && acts[n] == Unlock(t, rid)
    ensures t < |run[n].txns| == |run[n + 1].txns| && rid in run[n].table
    ensures !UnlockRefused(run[n], t) <==> !run[0].strict || Ended(run, acts, n, t)
    ensures UnlockRefused(run[n], t) ==> run[n + 1].table == run[n].table && run[n + 1].txns[t].state == Aborted
    ensures !UnlockRefused(run[n], t) ==>
      && run[n + 1].table.Keys == run[n].table.Keys
      && run[n + 1].table[rid].list == Others(run[n].table[rid].list, t)
      && forall q :: q in run[n].table && q != rid ==> run[n + 1].table[q] == run[n].table[q]
  {
    assert StepAt(run, acts, n);
    StateIs(run, acts, n, t);
    SameMode(run, acts, n);
    RunKeeps(run, acts, n);
    UnlockEffect(run[n], t, rid);
  }

  lemma UnlockEffect(s: State, t: nat, rid: int)
    requires Inv(s) && Enabled(s, Unlock(t, rid))
    ensures var s' := DoUnlock(s, t, rid);
      if UnlockRefused(s, t) then s'.table == s.table && t < |s'.txns| && s'.txns[t].state == Aborted
      else
        && s'.table.Keys == s.table.Keys && s'.table[rid].list == Others(s.table[rid].list, t)
        && forall q :: q in s.table && q != rid ==> s'.table[q] == s.table[q]
  {
    assert QueueOk(s, rid);
    OthersDrop(s.table[rid].list, t);
  }

  // ----- the lock sets -------------------------------------------------------------------

  /** Step i grants t a shared lock on rid, and no later one turns it into an exclusive one. */
  ghost predicate SharedSince(run: seq<State>, acts: seq<Step>, n: nat, t: nat, rid: int, i: nat) {
    && i < n && GrantOf(run, acts, i, t, rid, Shared)
    && forall j: nat {:trigger GrantOf(run, acts, j, t, rid, Exclusive)} ::
         i < j < n ==> !GrantOf(run, acts, j, t, rid, Exclusive)
  }

  ghost predicate ExclusiveSince(run: seq<State>, acts: seq<Step>, n: nat, t: nat, rid: int, i: nat) {
    i < n && GrantOf(run, acts, i, t, rid, Exclusive)
  }

  /** A transaction that has the record in its shared set and is granted an exclusive lock on it was upgrading. */
  lemma MustUpgrade(run: seq<State>, acts: seq<Step>, n: nat, t: nat, rid: int, i: nat)
    requires IsRun(run, acts) && SharedSince(run, acts, n, t, rid, i) && GrantOf(run, acts, n, t, rid, Exclusive)
    ensures run[n].txns[t].blocked.upgrading
  {
    AfterGrant(run, acts, i, t, rid, Shared);
    if !Claims(run[n], t, rid, Shared) {
      var u := ReleasedBetween(run, acts, i + 1, n, t, rid, Shared);
      TwoPhase(run, acts, u, n, t, rid);
    }
    RunKeeps(run, acts, n);
    assert QueueOk(run[n], rid);
    var list := run[n].table[rid].list;
    assert RequestOk(run[n], rid, list[Pos(list, t)]);
  }

  /** The step grants t a lock of that mode on rid. */
  ghost predicate Grants(s: State, a: Step, t: nat, rid: int, mode: Mode) {
    && a == LockGrant(t) && t < |s.txns|
    && s.txns[t].blocked.Awaits? && s.txns[t].blocked.rid == rid && s.txns[t].blocked.mode == mode
  }

  lemma SetsAfter(s: State, a: Step, t: nat, rid: int)
    requires Enabled(s, a) && t < |s.txns|
    ensures t < |Next(s, a).txns|
    ensures var x, x' := s.txns[t], Next(s, a).txns[t];
      && (rid in x'.exclusive <==> rid in x.exclusive || Grants(s, a, t, rid, Exclusive))
      && (rid in x'.shared <==>
           || Grants(s, a, t, rid, Shared)
           || (rid in x.shared && !(Grants(s, a, t, rid, Exclusive) && x.blocked.upgrading)))
  {
    match a
    case LockGrant(u) =>
    case _ =>
  }

  lemma SetsStep(run: seq<State>, acts: seq<Step>, n: nat, t: nat, rid: int)
    requires IsRun(run, acts) && n < |acts| && t < |run[n].txns|
    ensures t < |run[n + 1].txns|
    ensures rid in run[n + 1].txns[t].exclusive <==>
      rid in run[n].txns[t].exclusive || GrantOf(run, acts, n, t, rid, Exclusive)
    ensures rid in run[n + 1].txns[t].shared <==>
      GrantOf(run, acts, n, t, rid, Shared) || (rid in run[n].txns[t].shared
        && !(GrantOf(run, acts, n, t, rid, Exclusive) && run[n].txns[t].blocked.upgrading))
  {
    assert StepAt(run, acts, n);
    SetsAfter(run[n], acts[n], t, rid);
  }

  /** The lock sets of every transaction in every run: a record is in the exclusive set exactly if an exclusive lock
    * on it was granted, and in the shared set exactly if a shared one was and none has been upgraded since. */
  lemma {:induction false} LockSets(run: seq<State>, acts: seq<Step>, n: nat, t: nat, rid: int)
    requires IsRun(run, acts) && n < |run| && t < |run[n].txns|
    ensures rid in run[n].txns[t].exclusive <==> exists i: nat :: ExclusiveSince(run, acts, n, t, rid, i)
    ensures rid in run[n].txns[t].shared <==> exists i: nat :: SharedSince(run, acts, n, t, rid, i)
  {
    var m := n - 1;
    assert StepAt(run, acts, m);
    if t < |run[m].txns| {
      LockSets(run, acts, m, t, rid);
      SetsStep(run, acts, m, t, rid);
      SinceStep(run, acts, m, n, t, rid);
      if i: nat :| SharedSince(run, acts, m, t, rid, i) && GrantOf(run, acts, m, t, rid, Exclusive) {
        MustUpgrade(run, acts, m, t, rid, i);
      }
    } else {
      NotYet(run, acts, m, t);
      forall i: nat ensures !SharedSince(run, acts, n, t, rid, i) && !ExclusiveSince(run, acts, n, t, rid, i) {
        assert i < m ==> acts[i].Begin? || acts[i].txn != t;
      }
    }
  }

  lemma SinceStep(run: seq<State>, acts: seq<Step>, m: nat, n: nat, t: nat, rid: int)
    requires n == m + 1
    ensures (exists i: nat :: ExclusiveSince(run, acts, n, t, rid, i)) <==>
      (exists i: nat :: ExclusiveSince(run, acts, m, t, rid, i)) || GrantOf(run, acts, m, t, rid, Exclusive)
    ensures (exists i: nat :: SharedSince(run, acts, n, t, rid, i)) <==>
      GrantOf(run, acts, m, t, rid, Shared)
      || ((exists i: nat :: SharedSince(run, acts, m, t, rid, i)) && !GrantOf(run, acts, m, t, rid, Exclusive))
  {
    if i: nat :| ExclusiveSince(run, acts, m, t, rid, i) { assert ExclusiveSince(run, acts, n, t, rid, i); }
    if GrantOf(run, acts, m, t, rid, Exclusive) { assert ExclusiveSince(run, acts, n, t, rid, m); }
    if i: nat :| ExclusiveSince(run, acts, n, t, rid, i) && i < m { assert ExclusiveSince(run, acts, m, t, rid, i); }
    if GrantOf(run, acts, m, t, rid, Shared) { assert SharedSince(run, acts, n, t, rid, m); }
    if i: nat :| SharedSince(run, acts, m, t, rid, i) && !GrantOf(run, acts, m, t, rid, Exclusive) {
      assert SharedSince(run, acts, n, t, rid, i);
    }
    if i: nat :| SharedSince(run, acts, n, t, rid, i) && i < m { assert SharedSince(run, acts, m, t, rid, i); }
  }

  /** The lock set of that mode. */
  ghost function SetOf(s: State, t: nat, mode: Mode): set<int>
    requires t < |s.txns|
  {
    if mode == Shared then s.txns[t].shared else s.txns[t].exclusive
  }

  lemma HeldStep(s: State, a: Step, t: nat, rid: int, mode: Mode)
    requires Inv(s) && Enabled(s, a) && t < |s.txns| && Holds(s, t, rid, mode) && rid in SetOf(s, t, mode)
    ensures t < |Next(s, a).txns| && rid in SetOf(Next(s, a), t, mode)
  {
    assert QueueOk(s, rid);
    var list := s.table[rid].list;
    assert RequestOk(s, rid, list[Pos(list, t)]);
    SetsAfter(s, a, t, rid);
  }

  /** A lock that is held is in the set of its mode. */
  lemma {:induction false} HeldIsListed(run: seq<State>, acts: seq<Step>, n: nat, t: nat, rid: int, mode: Mode)
    requires IsRun(run, acts) && n < |run| && t < |run[n].txns| && Holds(run[n], t, rid, mode)
    ensures rid in SetOf(run[n], t, mode)
  {
    var m := n - 1;
    assert StepAt(run, acts, m);
    RunKeeps(run, acts, m);
    if Holds(run[m], t, rid, mode) {
      HeldKnown(run[m], t, rid, mode);
      HeldIsListed(run, acts, m, t, rid, mode);
      HeldStep(run[m], acts[m], t, rid, mode);
    } else {
      NewlyHeld(run[m], acts[m], t, rid, mode);
      SetsAfter(run[m], acts[m], t, rid);
    }
  }

  lemma HeldKnown(s: State, t: nat, rid: int, mode: Mode)
    requires Inv(s) && Holds(s, t, rid, mode)
    ensures t < |s.txns|
  {
    assert QueueOk(s, rid);
    assert RequestOk(s, rid, s.table[rid].list[Pos(s.table[rid].list, t)]);
  }

  /** Transaction t has a request in the queue of rid. */
  ghost predicate Queued(s: State, t: nat, rid: int) {
    rid in s.table && Pos(s.table[rid].list, t) < |s.table[rid].list|
  }

  /** A transaction that is not asleep has requests only for the records in its lock sets. */
  lemma QueuedIsListed(run: seq<State>, acts: seq<Step>, n: nat, t: nat, rid: int)
    requires IsRun(run, acts) && n < |run| && t < |run[n].txns| && run[n].txns[t].blocked == Running
    requires Queued(run[n], t, rid)
    ensures rid in run[n].txns[t].shared + run[n].txns[t].exclusive
  {
    RunKeeps(run, acts, n);
    assert QueueOk(run[n], rid);
    var r := run[n].table[rid].list[Pos(run[n].table[rid].list, t)];
    assert RequestOk(run[n], rid, r);
    HeldIsListed(run, acts, n, t, rid, r.mode);
  }

  /** Commit and Abort unlock the records of the lock sets one after the other. */
  function UnlockAll(s: State, t: nat, rids: seq<int>): State
    requires t < |s.txns| && forall q :: q in rids ==> q in s.table
    decreases |rids|
  {
    if rids == [] then s else UnlockAll(DoUnlock(s, t, rids[0]), t, rids[1..])
  }

  lemma UnlockOne(s: State, t: nat, rid: int)
    requires Inv(s) && t < |s.txns| && s.txns[t].blocked == Running && rid in s.table && !UnlockRefused(s, t)
    ensures var s' := DoUnlock(s, t, rid);
      && Inv(s') && t < |s'.txns| && s'.txns[t].blocked == Running && !UnlockRefused(s', t)
      && s'.table.Keys == s.table.Keys && forall q :: Queued(s', t, q) <==> Queued(s, t, q) && q != rid
  {
    assert Enabled(s, Unlock(t, rid));
    StepKeeps(s, Unlock(t, rid));
    assert QueueOk(s, rid);
    OthersDrop(s.table[rid].list, t);
    OthersHasNone(s.table[rid].list, t);
  }

  lemma {:induction false} UnlockedAll(s: State, t: nat, rids: seq<int>)
    requires Inv(s) && t < |s.txns| && s.txns[t].blocked == Running && !UnlockRefused(s, t)
    requires forall q :: q in rids ==> q in s.table
    ensures forall q :: Queued(UnlockAll(s, t, rids), t, q) <==> Queued(s, t, q) && q !in rids
    decreases |rids|
  {
    if rids != [] {
      UnlockOne(s, t, rids[0]);
      UnlockedAll(DoUnlock(s, t, rids[0]), t, rids[1..]);
      assert rids == [rids[0]] + rids[1..];
    }
  }

  lemma {:induction false} ListedIsKnown(run: seq<State>, acts: seq<Step>, n: nat, t: nat, rid: int)
    requires IsRun(run, acts) && n < |run| && t < |run[n].txns|
    requires rid in run[n].txns[t].shared + run[n].txns[t].exclusive
    ensures rid in run[n].table
  {
    var m := n - 1;
    assert StepAt(run, acts, m);
    if t < |run[m].txns| && rid in run[m].txns[t].shared + run[m].txns[t].exclusive {
      ListedIsKnown(run, acts, m, t, rid);
    }
  }

  /** Releasing the lock sets, in any order, leaves no request of the transaction in any queue: the end of Commit and of
      Abort frees every record. */
  lemma ReleasesEverything(run: seq<State>, acts: seq<Step>, n: nat, t: nat, rids: seq<int>)
    requires IsRun(run, acts) && n < |run| && t < |run[n].txns| && run[n].txns[t].blocked == Running
    requires !run[0].strict || Ended(run, acts, n, t)
    requires forall q :: q in rids <==> q in run[n].txns[t].shared + run[n].txns[t].exclusive
    ensures forall q :: q in rids ==> q in run[n].table
    ensures forall q :: !Queued(UnlockAll(run[n], t, rids), t, q)
  {
    RunKeeps(run, acts, n);
    StateIs(run, acts, n, t);
    SameMode(run, acts, n);
    forall q | q in rids ensures q in run[n].table { ListedIsKnown(run, acts, n, t, q); }
    UnlockedAll(run[n], t, rids);
    forall q | Queued(run[n], t, q) ensures q in rids { QueuedIsListed(run, acts, n, t, q); }
  }

  // ----- who is let in ---------------------------------------------------------------------

  /** The lock call of t on rid at step i joined the queue. */
  ghost predicate Joins(run: seq<State>, acts: seq<Step>, i: nat, t: nat, rid: int)
    requires |run| == |acts| + 1
  {
    i < |acts| && acts[i].LockEnter? && acts[i].txn == t && acts[i].rid == rid && !TurnedAway(run, acts, i)
  }

  ghost predicate JoinedBefore(run: seq<State>, acts: seq<Step>, n: nat, t: nat, rid: int)
    requires |run| == |acts| + 1
  {
    exists i: nat {:trigger Joins(run, acts, i, t, rid)} :: i < n && Joins(run, acts, i, t, rid)
  }

  lemma JoinedStep(run: seq<State>, acts: seq<Step>, n: nat, t: nat, rid: int)
    requires |run| == |acts| + 1
    ensures JoinedBefore(run, acts, n + 1, t, rid) <==>
      JoinedBefore(run, acts, n, t, rid) || Joins(run, acts, n, t, rid)
  {
  }

  lemma OldestStep(s: State, a: Step, rid: int)
    requires Enabled(s, a)
    ensures var s' := Next(s, a);
      var joined := a.LockEnter? && a.rid == rid && s'.txns[a.txn].blocked.Awaits?;
      && (rid in s'.table <==> rid in s.table || joined)
      && (rid in s'.table ==>
           s'.table[rid].oldest == if !joined then s.table[rid].oldest
                                   else if rid !in s.table || a.txn < s.table[rid].oldest then a.txn
                                   else s.table[rid].oldest)
  {
  }

  /** A queue exists once a request has joined it, and `oldest` is the smallest id that has ever joined, even after that
      transaction has left. */
  lemma {:induction false} OldestIs(run: seq<State>, acts: seq<Step>, n: nat, rid: int)
    requires IsRun(run, acts) && n < |run|
    ensures rid in run[n].table <==> exists t: nat :: JoinedBefore(run, acts, n, t, rid)
    ensures rid in run[n].table ==> JoinedBefore(run, acts, n, run[n].table[rid].oldest, rid)
    ensures rid in run[n].table ==>
      forall t: nat :: JoinedBefore(run, acts, n, t, rid) ==> run[n].table[rid].oldest <= t
  {
    if n > 0 {
      var m := n - 1;
      assert StepAt(run, acts, m);
      OldestIs(run, acts, m, rid);
      OldestStep(run[m], acts[m], rid);
      forall t: nat ensures JoinedBefore(run, acts, n, t, rid) <==>
        JoinedBefore(run, acts, m, t, rid) || Joins(run, acts, m, t, rid)
      {
        JoinedStep(run, acts, m, t, rid);
      }
      if acts[m].LockEnter? && acts[m].rid == rid && !TurnedAway(run, acts, m) {
        assert Joins(run, acts, m, acts[m].txn, rid);
      }
    }
  }

  /** A lock call is turned away exactly if its transaction has ended, or if an older transaction has ever joined the
    * queue and the call is exclusive or the counter of exclusive requests is not zero. */
  lemma TurnedAwayExactly(run: seq<State>, acts: seq<Step>, n: nat, t: nat, rid: int, mode: Mode)
    requires IsRun(run, acts) && n < |acts| && acts[n] == LockEnter(t, rid, mode)
    ensures TurnedAway(run, acts, n) <==>
      || Ended(run, acts, n, t)
      || ((exists u: nat :: u < t && JoinedBefore(run, acts, n, u, rid))
          && (mode == Exclusive || (rid in run[n].table && run[n].table[rid].exclusiveCnt != 0)))
  {
    assert StepAt(run, acts, n);
    StateIs(run, acts, n, t);
    OldestIs(run, acts, n, rid);
  }

  /** An upgrade is accepted exactly if the transaction is not aborted and every older transaction in the queue stands
      behind an exclusive request or has one itself. */
  lemma UpgradeExactly(s: State, t: nat, rid: int)
    requires Inv(s) && Enabled(s, UpgradeEnter(t, rid))
    ensures var s', list := Next(s, UpgradeEnter(t, rid)), s.table[rid].list;
      s'.txns[t].blocked.Awaits? <==>
        && s.txns[t].state != Aborted
        && forall i :: 0 <= i < |list| && list[i].txn < t ==> exists k :: 0 <= k <= i && list[k].mode == Exclusive
  {
    assert QueueOk(s, rid);
    var list := s.table[rid].list;
    var src := Pos(list, t);
    assert RequestOk(s, rid, list[src]);
    var tgt := FirstExclusive(list, src);
    forall i | 0 <= i < tgt ensures list[i].mode == Shared { assert i < src ==> list[i].granted; }
    if tgt < |list| { assert list[tgt].mode == Exclusive; }
  }
}
