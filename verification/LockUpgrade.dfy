/** With upgrades neither the lock-point order nor the exclusive counter survives. */
module LockUpgrade {
  import opened LockProtocol
  import opened LockSerial

  const R := 7

  function Idle(state: TxnState, shared: set<int>, exclusive: set<int>): Txn { Txn(state, shared, exclusive, Running) }

  function Asleep(shared: set<int>, mode: Mode, upgrading: bool): Txn {
    Txn(Growing, shared, {}, Awaits(R, mode, upgrading))
  }

  function Queue(t0: Txn, t1: Txn, cnt: nat, oldest: nat, list: seq<Request>): State {
    State(true, [t0, t1], map[R := Waiting(cnt, oldest, list)])
  }

  function Steps(): seq<Step> {
    [Begin, Begin, LockEnter(1, R, Shared), LockGrant(1), LockEnter(0, R, Shared), LockGrant(0),
     UpgradeEnter(0, R), UpgradeEnter(1, R), LockGrant(1), Finish(1, true), Unlock(1, R), LockGrant(0)]
  }

  function States(): seq<State> {
    var begun, reader := Idle(Growing, {}, {}), Idle(Growing, {R}, {});
    var s1, s0 := Request(1, Shared, true), Request(0, Shared, true);
    var x1, x0 := Request(1, Exclusive, false), Request(0, Exclusive, false);
    [State(true, [], map[]),
     State(true, [begun], map[]),
     State(true, [begun, begun], map[]),
     Queue(begun, Asleep({}, Shared, false), 0, 1, [Request(1, Shared, false)]),
     Queue(begun, reader, 0, 1, [s1]),
     Queue(Asleep({}, Shared, false), reader, 0, 0, [s1, Request(0, Shared, false)]),
     Queue(reader, reader, 0, 0, [s1, s0]),
     Queue(Asleep({R}, Exclusive, true), reader, 0, 0, [s1, x0]),
     Queue(Asleep({R}, Exclusive, true), Asleep({R}, Exclusive, true), 0, 0, [x1, x0]),
     Queue(Asleep({R}, Exclusive, true), Idle(Growing, {}, {R}), 0, 0, [Request(1, Exclusive, true), x0]),
     Queue(Asleep({R}, Exclusive, true), Idle(Committed, {}, {R}), 0, 0, [Request(1, Exclusive, true), x0]),
     Queue(Asleep({R}, Exclusive, true), Idle(Committed, {}, {R}), SIZE_T - 1, 0, [x0]),
     Queue(Idle(Growing, {}, {R}), Idle(Committed, {}, {R}), SIZE_T - 1, 0, [Request(0, Exclusive, true)])]
  }

  lemma SameState(a: State, b: State)
    requires a.strict == b.strict && |a.txns| == |b.txns| == 2 && a.txns[0] == b.txns[0] && a.txns[1] == b.txns[1]
    requires a.table.Keys == b.table.Keys == {R} && a.table[R] == b.table[R]
    ensures a == b
  {
    assert a.table == b.table;
  }

  lemma FirstReads(i: nat)
    requires 2 <= i < 4
    ensures Enabled(States()[i], Steps()[i]) && States()[i + 1] == Next(States()[i], Steps()[i])
  {
    var a, b := States()[i + 1], Next(States()[i], Steps()[i]);
    assert a.txns[0].shared == b.txns[0].shared && a.txns[0].exclusive == b.txns[0].exclusive;
    assert a.txns[1].shared == b.txns[1].shared && a.txns[1].exclusive == b.txns[1].exclusive;
    assert a.table[R].list == b.table[R].list;
    SameState(a, b);
  }

  lemma SecondReads(i: nat)
    requires 4 <= i < 6
    ensures Enabled(States()[i], Steps()[i]) && States()[i + 1] == Next(States()[i], Steps()[i])
  {
    var a, b := States()[i + 1], Next(States()[i], Steps()[i]);
    assert a.txns[0].shared == b.txns[0].shared && a.txns[0].exclusive == b.txns[0].exclusive;
    assert a.txns[1].shared == b.txns[1].shared && a.txns[1].exclusive == b.txns[1].exclusive;
    assert a.table[R].list == b.table[R].list;
    SameState(a, b);
  }

  lemma FirstAsksToUpgrade(i: nat)
    requires i == 6
    ensures Enabled(States()[i], Steps()[i]) && States()[i + 1] == Next(States()[i], Steps()[i])
  {
    var list := States()[6].table[R].list;
    assert Pos(list, 0) == 1 && FirstExclusive(list, 1) == 2;
    assert MoveBack(list, 1, 2) == [Request(1, Shared, true), Request(0, Exclusive, false)];
    var a, b := States()[i + 1], Next(States()[i], Steps()[i]);
    assert a.txns[0].shared == b.txns[0].shared && a.txns[0].exclusive == b.txns[0].exclusive;
    assert a.txns[1].shared == b.txns[1].shared && a.txns[1].exclusive == b.txns[1].exclusive;
    assert a.table[R].list == b.table[R].list;
    SameState(a, b);
  }

  lemma SecondAsksToUpgrade(i: nat)
    requires i == 7
    ensures Enabled(States()[i], Steps()[i]) && States()[i + 1] == Next(States()[i], Steps()[i])
  {
    var list := States()[7].table[R].list;
    assert Pos(list, 1) == 0 && FirstExclusive(list, 0) == 1;
    assert MoveBack(list, 0, 1) == [Request(1, Exclusive, false), Request(0, Exclusive, false)];
    var a, b := States()[i + 1], Next(States()[i], Steps()[i]);
    assert a.txns[0].shared == b.txns[0].shared && a.txns[0].exclusive == b.txns[0].exclusive;
    assert a.txns[1].shared == b.txns[1].shared && a.txns[1].exclusive == b.txns[1].exclusive;
    assert a.table[R].list == b.table[R].list;
    SameState(a, b);
  }

  lemma FirstWrites(i: nat)
    requires 8 <= i < 10
    ensures Enabled(States()[i], Steps()[i]) && States()[i + 1] == Next(States()[i], Steps()[i])
  {
    var a, b := States()[i + 1], Next(States()[i], Steps()[i]);
    assert a.txns[0].shared == b.txns[0].shared && a.txns[0].exclusive == b.txns[0].exclusive;
    assert a.txns[1].shared == b.txns[1].shared && a.txns[1].exclusive == b.txns[1].exclusive;
    assert a.table[R].list == b.table[R].list;
    SameState(a, b);
  }

  lemma SecondWrites(i: nat)
    requires 10 <= i < 12
    ensures Enabled(States()[i], Steps()[i]) && States()[i + 1] == Next(States()[i], Steps()[i])
  {
    var a, b := States()[i + 1], Next(States()[i], Steps()[i]);
    assert a.txns[0].shared == b.txns[0].shared && a.txns[0].exclusive == b.txns[0].exclusive;
    assert a.txns[1].shared == b.txns[1].shared && a.txns[1].exclusive == b.txns[1].exclusive;
    assert a.table[R].list == b.table[R].list;
    SameState(a, b);
  }

  /** Two readers that both upgrade: each was granted a lock conflicting with a later one of the other. */
  lemma UpgradeBreaksOrder()
    ensures IsRun(States(), Steps()) && Before(States(), Steps(), 0, 1) && Before(States(), Steps(), 1, 0)
    ensures States()[11].table[R].exclusiveCnt == SIZE_T - 1 && CountExclusive(States()[11].table[R].list) == 1
  {
    forall i | 0 <= i < 12 ensures StepAt(States(), Steps(), i) {
      if 10 <= i { SecondWrites(i); } else if 8 <= i { FirstWrites(i); } else if 7 <= i { SecondAsksToUpgrade(i); }
      else if 6 <= i { FirstAsksToUpgrade(i); }
      else if 4 <= i { SecondReads(i); } else if 2 <= i { FirstReads(i); }
    }
    assert GrantOf(States(), Steps(), 5, 0, R, Shared) && GrantOf(States(), Steps(), 8, 1, R, Exclusive);
    assert GrantOf(States(), Steps(), 3, 1, R, Shared) && GrantOf(States(), Steps(), 11, 0, R, Exclusive);
  }
}
