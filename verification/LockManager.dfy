/** The lock manager object: its critical sections, with the loops over a queue, are the steps of
    the protocol. */
module LockManagerObject {
  import opened LockProtocol

  class LockManager {
    const strict: bool
    var txns: seq<Txn>
    var table: map<int, Waiting>

    constructor (strict: bool)
      ensures this.strict == strict && Initial(Snapshot())
    {
      this.strict := strict;
      txns, table := [], map[];
    }

    ghost function Snapshot(): State
      reads this
    {
      State(strict, txns, table)
    }

    /** The condition re-evaluated on every wake-up. */
    method WaitPredicate(rid: int, t: nat, mode: Mode) returns (ready: bool)
      requires rid in table
      ensures ready <==> Ready(table[rid].list, t, mode)
    {
      var list := table[rid].list;
      if mode == Exclusive {
        return |list| > 0 && list[0].txn == t;
      }
      for i := 0 to |list|
        invariant forall j :: 0 <= j < i ==> list[j].txn != t && list[j].mode == Shared && list[j].granted
      {
        if list[i].txn != t {
          if list[i].mode != Shared || !list[i].granted {
            assert i < Pos(list, t);
            return false;
          }
        } else {
          assert Pos(list, t) == i;
          return true;
        }
      }
      assert Pos(list, t) == |list|;
      return false;
    }

    /** LockShared and LockExclusive up to the wait; false means the caller is aborted. */
    method EnterLock(t: nat, rid: int, mode: Mode) returns (waits: bool)
      requires Enabled(Snapshot(), LockEnter(t, rid, mode))
      modifies this
      ensures Snapshot() == Next(old(Snapshot()), LockEnter(t, rid, mode))
      ensures waits <==> txns[t].blocked.Awaits?
      ensures !waits ==> txns[t].state == Aborted && table == old(table)
    {
      var x := txns[t];
      if x.state == Aborted {
        return false;
      }
      var req := Request(t, mode, false);
      if rid !in table {
        table := table[rid := Waiting(0, t, [req])];
      } else {
        var w := table[rid];
        if (mode == Exclusive || w.exclusiveCnt != 0) && t > w.oldest {
          txns := txns[t := x.(state := Aborted)];
          return false;
        }
        if w.oldest > t {
          w := w.(oldest := t);
        }
        table := table[rid := w.(list := w.list + [req])];
      }
      if mode == Exclusive {
        table := table[rid := table[rid].(exclusiveCnt := Inc(table[rid].exclusiveCnt))];
      }
      txns := txns[t := x.(blocked := Awaits(rid, mode, false))];
      waits := true;
    }

    /** The part of every lock call that runs once the condition holds. */
    method GrantLock(t: nat) returns (notified: bool)
      requires Enabled(Snapshot(), LockGrant(t))
      modifies this
      ensures Snapshot() == Next(old(Snapshot()), LockGrant(t))
      ensures notified <==> Notifies(old(Snapshot()), LockGrant(t))
    {
      notified := false;
      var x := txns[t];
      var rid := x.blocked.rid;
      var w := table[rid];
      var i := if x.blocked.mode == Exclusive then 0 else Pos(w.list, t);
      assert i == Pos(w.list, t);
      table := table[rid := w.(list := w.list[i := w.list[i].(granted := true)])];
      if x.blocked.mode == Shared {
        x := x.(shared := x.shared + {rid});
        notified := true;
      } else {
        if x.blocked.upgrading {
          x := x.(shared := x.shared - {rid});
        }
        x := x.(exclusive := x.exclusive + {rid});
      }
      txns := txns[t := x.(blocked := Running)];
    }

    /** LockUpgrade up to the wait; false means it was refused and nothing has changed. */
    method EnterUpgrade(t: nat, rid: int) returns (waits: bool)
      requires Enabled(Snapshot(), UpgradeEnter(t, rid)) && Distinct(table[rid].list)
      modifies this
      ensures Snapshot() == Next(old(Snapshot()), UpgradeEnter(t, rid))
      ensures waits <==> txns[t].blocked.Awaits?
    {
      if txns[t].state == Aborted {
        return false;
      }
      var list := table[rid].list;
      var src, tgt := FindSourceAndTarget(list, t);
      var i := 0;
      while i < tgt
        invariant 0 <= i <= tgt
        invariant forall j :: 0 <= j < i ==> list[j].txn >= t
      {
        if list[i].txn < list[src].txn {
          return false;
        }
        i := i + 1;
      }
      table := table[rid := table[rid].(list := MoveBack(list, src, tgt))];
      txns := txns[t := txns[t].(blocked := Awaits(rid, Exclusive, true))];
      waits := true;
    }

    method FindSourceAndTarget(list: seq<Request>, t: nat) returns (src: nat, tgt: nat)
      requires Distinct(list) && Pos(list, t) < |list| && list[Pos(list, t)].mode == Shared
      ensures src == Pos(list, t) && tgt == FirstExclusive(list, src) && src < tgt
    {
      src, tgt := |list|, |list|;
      var it := 0;
      while it < |list|
        invariant 0 <= it <= |list| && tgt == |list|
        invariant src == if it <= Pos(list, t) then |list| else Pos(list, t)
        invariant it > Pos(list, t) ==> FirstExclusive(list, src) >= it
      {
        if list[it].txn == t {
          src := it;
        }
        if src != |list| {
          if list[it].mode == Exclusive {
            tgt := it;
            return;
          }
        }
        it := it + 1;
      }
    }

    /** Unlock: false means strict two-phase locking refused it and the caller is aborted. */
    method Unlock(t: nat, rid: int) returns (ok: bool, notified: bool)
      requires Enabled(Snapshot(), LockProtocol.Step.Unlock(t, rid))
      modifies this
      ensures Snapshot() == Next(old(Snapshot()), LockProtocol.Step.Unlock(t, rid))
      ensures ok <==> !UnlockRefused(old(Snapshot()), t)
      ensures ok <==> !strict || old(txns[t].state) == Committed || old(txns[t].state) == Aborted
      ensures notified <==> Notifies(old(Snapshot()), LockProtocol.Step.Unlock(t, rid))
    {
      notified := false;
      var x := txns[t];
      if strict {
        if x.state != Committed && x.state != Aborted {
          txns := txns[t := x.(state := Aborted)];
          return false, false;
        }
      } else if x.state == Growing {
        txns := txns[t := x.(state := Shrinking)];
      }
      ok := true;
      var w := table[rid];
      var it := 0;
      while it < |w.list| && w.list[it].txn != t
        invariant 0 <= it <= |w.list|
        invariant forall j :: 0 <= j < it ==> w.list[j].txn != t
      {
        it := it + 1;
      }
      assert it == Pos(w.list, t);
      if it < |w.list| {
        var exclusive := w.list[it].mode == Exclusive;
        notified := it == 0 || exclusive;
        table := table[rid :=
          Waiting(if exclusive then Dec(w.exclusiveCnt) else w.exclusiveCnt, w.oldest, Drop(w.list, it))];
      } else {
        assert txns == DoUnlock(old(Snapshot()), t, rid).txns;
      }
    }
  }
}
