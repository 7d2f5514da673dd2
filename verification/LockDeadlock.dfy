/** One upgrade, contested by nobody, is enough for a deadlock: the counter it leaves at zero lets a shared request
  * slip in. */
module LockDeadlock {
  import opened LockProtocol
  import opened LockProgress

  const R1 := 1
  const R2 := 2

  function Act(i: nat): Step
    requires i < 10
  {
    if i < 2 then Begin
    else if i == 2 then LockEnter(1, R2, Exclusive)
    else if i == 3 then LockGrant(1)
    else if i == 4 then LockEnter(0, R1, Shared)
    else if i == 5 then LockGrant(0)
    else if i == 6 then UpgradeEnter(0, R1)
    else if i == 7 then LockGrant(0)
    else if i == 8 then LockEnter(1, R1, Shared)
    else LockEnter(0, R2, Shared)
  }

  function T(shared: set<int>, exclusive: set<int>, blocked: Blocked): Txn { Txn(Growing, shared, exclusive, blocked) }

  function Fresh(): Txn { T({}, {}, Running) }

  function Writer(): Txn { T({}, {R2}, Running) }

  function Queue2(): Waiting { Waiting(1, 1, [Request(1, Exclusive, true)]) }

  function Both(t0: Txn, t1: Txn, w1: Waiting, w2: Waiting): State { State(true, [t0, t1], map[R1 := w1, R2 := w2]) }

  function At(i: nat): State
    requires i <= 10
  {
    if i == 0 then State(true, [], map[])
    else if i == 1 then State(true, [Fresh()], map[])
    else if i == 2 then State(true, [Fresh(), Fresh()], map[])
    else if i == 3 then State(true, [Fresh(), T({}, {}, Awaits(R2, Exclusive, false))],
      map[R2 := Waiting(1, 1, [Request(1, Exclusive, false)])])
    else if i == 4 then State(true, [Fresh(), Writer()], map[R2 := Queue2()])
    else if i == 5 then Both(T({}, {}, Awaits(R1, Shared, false)), Writer(), Waiting(0, 0, [Request(0, Shared, false)]),
      Queue2())
    else if i == 6 then Both(T({R1}, {}, Running), Writer(), Waiting(0, 0, [Request(0, Shared, true)]), Queue2())
    else if i == 7 then Both(T({R1}, {}, Awaits(R1, Exclusive, true)), Writer(),
      Waiting(0, 0, [Request(0, Exclusive, false)]), Queue2())
    else if i == 8 then Both(T({}, {R1}, Running), Writer(), Waiting(0, 0, [Request(0, Exclusive, true)]), Queue2())
    else if i == 9 then
      Both(T({}, {R1}, Running), T({}, {R2}, Awaits(R1, Shared, false)),
           Waiting(0, 0, [Request(0, Exclusive, true), Request(1, Shared, false)]), Queue2())
    else
      Both(T({}, {R1}, Awaits(R2, Shared, false)), T({}, {R2}, Awaits(R1, Shared, false)),
           Waiting(0, 0, [Request(0, Exclusive, true), Request(1, Shared, false)]),
           Waiting(1, 0, [Request(1, Exclusive, true), Request(0, Shared, false)]))
  }

  lemma Begins(i: nat)
    requires i < 2
    ensures Enabled(At(i), Act(i)) && At(i + 1) == Next(At(i), Act(i))
  {
  }

  lemma WriterAsks(i: nat)
    requires i == 2
    ensures Enabled(At(i), Act(i)) && At(i + 1) == Next(At(i), Act(i))
  {
    var a, b := At(i + 1), Next(At(i), Act(i));
    assert a.table[R2] == b.table[R2] && a.table.Keys == b.table.Keys;
    assert a.table == b.table && a.txns == b.txns;
  }

  lemma WriterLocks(i: nat)
    requires i == 3
    ensures Enabled(At(i), Act(i)) && At(i + 1) == Next(At(i), Act(i))
  {
    var a, b := At(i + 1), Next(At(i), Act(i));
    assert a.table[R2].list == b.table[R2].list && a.table.Keys == b.table.Keys;
    assert a.txns[1].exclusive == b.txns[1].exclusive;
    assert a.table == b.table && a.txns == b.txns;
  }

  lemma ReaderAsks(i: nat)
    requires i == 4
    ensures Enabled(At(i), Act(i)) && At(i + 1) == Next(At(i), Act(i))
  {
    var a, b := At(i + 1), Next(At(i), Act(i));
    assert a.table[R1] == b.table[R1] && a.table[R2] == b.table[R2] && a.table.Keys == b.table.Keys;
    assert a.table == b.table && a.txns == b.txns;
  }

  lemma ReaderLocks(i: nat)
    requires i == 5
    ensures Enabled(At(i), Act(i)) && At(i + 1) == Next(At(i), Act(i))
  {
    var a, b := At(i + 1), Next(At(i), Act(i));
    assert a.table[R1].list == b.table[R1].list && a.table[R2] == b.table[R2] && a.table.Keys == b.table.Keys;
    assert a.txns[0].shared == b.txns[0].shared;
    assert a.table == b.table && a.txns == b.txns;
  }

  lemma ReaderUpgrades(i: nat)
    requires i == 6
    ensures Enabled(At(i), Act(i)) && At(i + 1) == Next(At(i), Act(i))
  {
    var list := [Request(0, Shared, true)];
    assert Pos(list, 0) == 0 && FirstExclusive(list, 0) == 1 && MoveBack(list, 0, 1) == [Request(0, Exclusive, false)];
    var a, b := At(i + 1), Next(At(i), Act(i));
    assert a.table == b.table && a.txns == b.txns;
  }

  lemma UpgradeGranted(i: nat)
    requires i == 7
    ensures Enabled(At(i), Act(i)) && At(i + 1) == Next(At(i), Act(i))
  {
    var a, b := At(i + 1), Next(At(i), Act(i));
    assert a.txns[0].shared == b.txns[0].shared && a.txns[0].exclusive == b.txns[0].exclusive;
    assert a.table[R1].list == b.table[R1].list && a.table[R2] == b.table[R2] && a.table.Keys == b.table.Keys;
    assert a.table == b.table && a.txns == b.txns;
  }

  /** A shared request joins a queue of one. */
  lemma JoinsOne(s: State, t: nat, rid: int, r: Request)
    requires t < |s.txns| && s.txns[t].blocked == Running && s.txns[t].state == Growing
    requires rid in s.table && s.table[rid].list == [r] && r.txn != t
      && (t <= s.table[rid].oldest || s.table[rid].exclusiveCnt == 0)
    ensures Enabled(s, LockEnter(t, rid, Shared))
    ensures var w := s.table[rid];
      Next(s, LockEnter(t, rid, Shared)) ==
        SetTxn(SetQueue(s, rid,
          Waiting(w.exclusiveCnt, if t < w.oldest then t else w.oldest, [r, Request(t, Shared, false)])),
               t, s.txns[t].(blocked := Awaits(rid, Shared, false)))
  {
    assert Pos([r], t) == 1;
    assert [r] + [Request(t, Shared, false)] == [r, Request(t, Shared, false)];
  }

  /** exclusive_cnt is zero, so the younger transaction does not die. */
  lemma YoungerAsks(i: nat)
    requires i == 8
    ensures Enabled(At(i), Act(i)) && At(i + 1) == Next(At(i), Act(i))
  {
    JoinsOne(At(8), 1, R1, Request(0, Exclusive, true));
    assert At(9).txns == At(8).txns[1 := T({}, {R2}, Awaits(R1, Shared, false))];
    assert At(9).table == At(8).table[R1 := At(9).table[R1]];
  }

  lemma OlderWaits(i: nat)
    requires i == 9
    ensures Enabled(At(i), Act(i)) && At(i + 1) == Next(At(i), Act(i))
  {
    JoinsOne(At(9), 0, R2, Request(1, Exclusive, true));
    assert At(10).txns == At(9).txns[0 := T({}, {R1}, Awaits(R2, Shared, false))];
    assert At(10).table == At(9).table[R2 := At(10).table[R2]];
  }

  lemma SlipsBehind(s: State, t: nat, rid: int, r: Request)
    requires t < |s.txns| && s.txns[t].blocked == Running && s.txns[t].state == Growing
    requires rid in s.table && s.table[rid].list == [r] && r.mode == Exclusive && r.txn < t
      && s.table[rid].exclusiveCnt == 0
    ensures Enabled(s, LockEnter(t, rid, Shared)) && SlipsIn(s, LockEnter(t, rid, Shared))
  {
    JoinsOne(s, t, rid, r);
    assert |Next(s, LockEnter(t, rid, Shared)).table[rid].list| == 2;
    assert s.table[rid].list[0] == r;
  }

  /** A shared request behind a granted exclusive one waits for its owner. */
  lemma Behind(s: State, t: nat, u: nat, rid: int)
    requires t != u && t < |s.txns| && s.txns[t].blocked == Awaits(rid, Shared, false)
    requires rid in s.table && s.table[rid].list == [Request(u, Exclusive, true), Request(t, Shared, false)]
    ensures Sleeps(s, t) && !CanMove(s, t) && Blocks(s, u, t)
  {
    var list := s.table[rid].list;
    assert list[0].txn == u && list[1].txn == t;
    assert Pos(list, u) == 0 && Pos(list, t) == 1;
  }

  lemma StepOf(i: nat)
    requires i < 10
    ensures Enabled(At(i), Act(i)) && At(i + 1) == Next(At(i), Act(i))
  {
    if i < 2 { Begins(i); } else if i == 2 { WriterAsks(i); } else if i == 3 { WriterLocks(i); }
    else if i == 4 { ReaderAsks(i); } else if i == 5 { ReaderLocks(i); } else if i == 6 { ReaderUpgrades(i); }
    else if i == 7 { UpgradeGranted(i); } else if i == 8 { YoungerAsks(i); } else { OlderWaits(i); }
  }

  ghost function Run(): (r: seq<State>)
    ensures |r| == 11 && forall i :: 0 <= i < 11 ==> r[i] == At(i)
  {
    seq(11, i requires 0 <= i < 11 => At(i))
  }

  ghost function Acts(): (r: seq<Step>)
    ensures |r| == 10 && forall i :: 0 <= i < 10 ==> r[i] == Act(i)
  {
    seq(10, i requires 0 <= i < 10 => Act(i))
  }

  /** Ten steps, of which only step 6 is an upgrade. */
  lemma IsARun()
    ensures IsRun(Run(), Acts()) && forall i :: 0 <= i < 10 ==> (Acts()[i].UpgradeEnter? <==> i == 6)
  {
    var run, acts := Run(), Acts();
    forall i | 0 <= i < 10 ensures StepAt(run, acts, i) { StepOf(i); }
  }

  lemma EighthSlipsIn()
    ensures Enabled(At(8), Act(8)) && SlipsIn(At(8), Act(8))
  {
    SlipsBehind(At(8), 1, R1, Request(0, Exclusive, true));
  }

  /** After those ten steps each of the two transactions sleeps behind the other, and neither can move. */
  lemma OneUpgradeDeadlocks()
    ensures IsRun(Run(), Acts()) && forall i :: 0 <= i < 10 ==> (Acts()[i].UpgradeEnter? <==> i == 6)
    ensures |Run()[10].txns| == 2 && Sleeps(Run()[10], 0) && Sleeps(Run()[10], 1)
    ensures !CanMove(Run()[10], 0) && !CanMove(Run()[10], 1) && Blocks(Run()[10], 1, 0) && Blocks(Run()[10], 0, 1)
  {
    IsARun();
    Behind(At(10), 0, 1, R2);
    Behind(At(10), 1, 0, R1);
  }
}
