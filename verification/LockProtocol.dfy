/** The tuple lock manager as atomic steps: what runs between acquiring the mutex and either
    returning or going to sleep in the condition variable, and what runs after waking up. */
module LockProtocol {

  datatype Mode = Shared | Exclusive

  datatype Request = Request(txn: nat, mode: Mode, granted: bool)

  /** The queue of one record id. */
  datatype Waiting = Waiting(exclusiveCnt: nat, oldest: nat, list: seq<Request>)

  datatype TxnState = Growing | Shrinking | Committed | Aborted

  /** What a transaction's single thread is blocked on, if anything. */
  datatype Blocked = Running | Awaits(rid: int, mode: Mode, upgrading: bool)

  datatype Txn = Txn(state: TxnState, shared: set<int>, exclusive: set<int>, blocked: Blocked)

  datatype State = State(strict: bool, txns: seq<Txn>, table: map<int, Waiting>)

  datatype Step =
    | Begin
    | LockEnter(txn: nat, rid: int, mode: Mode)
    | LockGrant(txn: nat)
    | UpgradeEnter(txn: nat, rid: int)
    | Unlock(txn: nat, rid: int)
    | Finish(txn: nat, commit: bool)

  /** size_t arithmetic. */
  const SIZE_T: nat := 0x1_0000_0000_0000_0000

  function Inc(c: nat): nat { (c + 1) % SIZE_T }

  function Dec(c: nat): nat { (c + SIZE_T - 1) % SIZE_T }

  // ----- queues ---------------------------------------------------------------

  /** The position of t's request, or the length of the queue. */
  function Pos(list: seq<Request>, t: nat): (r: nat)
    ensures r <= |list|
    ensures r < |list| ==> list[r].txn == t
    ensures forall i :: 0 <= i < r ==> list[i].txn != t
  {
    if list == [] || list[0].txn == t then 0 else
      var r := Pos(list[1..], t);
      assert forall i :: 1 <= i < r + 1 ==> list[i] == list[1..][i - 1];
      r + 1
  }

  /** The first exclusive request at or after position `from`, or the length of the queue. */
  function FirstExclusive(list: seq<Request>, from: nat): (r: nat)
    requires from <= |list|
    ensures from <= r <= |list|
    ensures r < |list| ==> list[r].mode == Exclusive
    ensures forall i :: from <= i < r ==> list[i].mode == Shared
    decreases |list| - from
  {
    if from == |list| || list[from].mode.Exclusive? then from else FirstExclusive(list, from + 1)
  }

  function CountExclusive(list: seq<Request>): (n: nat)
    ensures n <= |list|
  {
    if list == [] then 0
    else CountExclusive(list[..|list| - 1]) + if list[|list| - 1].mode == Exclusive then 1 else 0
  }

  function Drop(list: seq<Request>, i: nat): (r: seq<Request>)
    requires i < |list|
    ensures |r| == |list| - 1
    ensures forall j :: 0 <= j < i ==> r[j] == list[j]
    ensures forall j :: i <= j < |r| ==> r[j] == list[j + 1]
  {
    list[..i] + list[i + 1..]
  }

  /** A request moves back to just before position `tgt`, as an exclusive one not yet granted. */
  function MoveBack(list: seq<Request>, src: nat, tgt: nat): (r: seq<Request>)
    requires src < |list| && src < tgt <= |list|
    ensures |r| == |list|
    ensures forall j :: 0 <= j < src ==> r[j] == list[j]
    ensures forall j :: src <= j < tgt - 1 ==> r[j] == list[j + 1]
    ensures r[tgt - 1] == Request(list[src].txn, Exclusive, false)
    ensures forall j :: tgt <= j < |r| ==> r[j] == list[j]
  {
    list[..src] + list[src + 1..tgt] + [Request(list[src].txn, Exclusive, false)] + list[tgt..]
  }

  /** The predicate a sleeping thread re-evaluates: a shared request waits for everything before it
      to be shared and granted, an exclusive one for the head of the queue. */
  predicate Ready(list: seq<Request>, t: nat, mode: Mode) {
    match mode
    case Shared =>
      var i := Pos(list, t);
      i < |list| && forall j :: 0 <= j < i ==> list[j].mode == Shared && list[j].granted
    case Exclusive => |list| > 0 && list[0].txn == t
  }

  // ----- steps ------------------------------------------------------------------

  function SetTxn(s: State, t: nat, x: Txn): State
    requires t < |s.txns|
  {
    s.(txns := s.txns[t := x])
  }

  function SetQueue(s: State, rid: int, w: Waiting): State {
    s.(table := s.table[rid := w])
  }

  /** LockShared and LockExclusive up to the wait: die, or join the end of the queue. */
  function DoLockEnter(s: State, t: nat, rid: int, mode: Mode): State
    requires t < |s.txns|
  {
    var x := s.txns[t];
    var req := Request(t, mode, false);
    if x.state == Aborted then s
    else if rid !in s.table then
      SetTxn(SetQueue(s, rid, Waiting(if mode == Exclusive then 1 else 0, t, [req])), t,
        x.(blocked := Awaits(rid, mode, false)))
    else
      var w := s.table[rid];
      if t > w.oldest && (mode == Exclusive || w.exclusiveCnt != 0) then SetTxn(s, t, x.(state := Aborted))
      else
        var w' := Waiting(if mode == Exclusive then Inc(w.exclusiveCnt) else w.exclusiveCnt,
                          if t < w.oldest then t else w.oldest,
                          w.list + [req]);
        SetTxn(SetQueue(s, rid, w'), t, x.(blocked := Awaits(rid, mode, false)))
  }

  /** The part after the wait: the request is granted and the lock set updated. */
  function DoLockGrant(s: State, t: nat): State
    requires t < |s.txns| && s.txns[t].blocked.Awaits? && s.txns[t].blocked.rid in s.table
    requires Pos(s.table[s.txns[t].blocked.rid].list, t) < |s.table[s.txns[t].blocked.rid].list|
  {
    var x := s.txns[t];
    var rid, mode := x.blocked.rid, x.blocked.mode;
    var w := s.table[rid];
    var i := Pos(w.list, t);
    var x' := if mode == Shared then x.(shared := x.shared + {rid})
              else x.(exclusive := x.exclusive + {rid},
                      shared := if x.blocked.upgrading then x.shared - {rid} else x.shared);
    SetTxn(SetQueue(s, rid, w.(list := w.list[i := w.list[i].(granted := true)])), t, x'.(blocked := Running))
  }

  predicate UpgradeDies(list: seq<Request>, t: nat)
    requires Pos(list, t) < |list|
  {
    exists i :: 0 <= i < FirstExclusive(list, Pos(list, t)) && list[i].txn < t
  }

  /** LockUpgrade up to the wait: give up, or move behind the other shared requests. */
  function DoUpgradeEnter(s: State, t: nat, rid: int): State
    requires t < |s.txns| && rid in s.table && Pos(s.table[rid].list, t) < |s.table[rid].list|
    requires s.table[rid].list[Pos(s.table[rid].list, t)].mode == Shared
  {
    var x, w := s.txns[t], s.table[rid];
    var src := Pos(w.list, t);
    var tgt := FirstExclusive(w.list, src);
    if x.state == Aborted || UpgradeDies(w.list, t) then s
    else SetTxn(SetQueue(s, rid, w.(list := MoveBack(w.list, src, tgt))), t,
      x.(blocked := Awaits(rid, Exclusive, true)))
  }

  predicate UnlockRefused(s: State, t: nat)
    requires t < |s.txns|
  {
    s.strict && s.txns[t].state != Committed && s.txns[t].state != Aborted
  }

  function DoUnlock(s: State, t: nat, rid: int): State
    requires t < |s.txns| && rid in s.table
  {
    var x, w := s.txns[t], s.table[rid];
    if UnlockRefused(s, t) then SetTxn(s, t, x.(state := Aborted))
    else
      var s' := SetTxn(s, t, if x.state == Growing then x.(state := Shrinking) else x);
      var i := Pos(w.list, t);
      if i == |w.list| then s'
      else
        var cnt := if w.list[i].mode == Exclusive then Dec(w.exclusiveCnt) else w.exclusiveCnt;
        SetQueue(s', rid, w.(exclusiveCnt := cnt, list := Drop(w.list, i)))
  }

  /** Transaction ids are 32-bit. */
  const MAX_TXN: nat := 0x7fff_ffff

  /** What the callers guarantee, and what a sleeping thread waits for. */
  predicate Enabled(s: State, a: Step) {
    match a
    case Begin => |s.txns| < MAX_TXN
    case LockEnter(t, rid, _) =>
      && t < |s.txns| && s.txns[t].blocked == Running
      && (s.txns[t].state == Aborted ||
          (s.txns[t].state == Growing && (rid in s.table ==> Pos(s.table[rid].list, t) == |s.table[rid].list|)))
    case LockGrant(t) =>
      && t < |s.txns| && s.txns[t].blocked.Awaits? && s.txns[t].blocked.rid in s.table
      && Pos(s.table[s.txns[t].blocked.rid].list, t) < |s.table[s.txns[t].blocked.rid].list|
      && Ready(s.table[s.txns[t].blocked.rid].list, t, s.txns[t].blocked.mode)
    case UpgradeEnter(t, rid) =>
      && t < |s.txns| && s.txns[t].blocked == Running && (s.txns[t].state == Aborted || s.txns[t].state == Growing)
      && rid in s.table && Pos(s.table[rid].list, t) < |s.table[rid].list|
      && s.table[rid].list[Pos(s.table[rid].list, t)].mode == Shared
    case Unlock(t, rid) => t < |s.txns| && s.txns[t].blocked == Running && rid in s.table
    case Finish(t, _) => t < |s.txns| && s.txns[t].blocked == Running
  }

  function Next(s: State, a: Step): State
    requires Enabled(s, a)
  {
    match a
    case Begin => s.(txns := s.txns + [Txn(Growing, {}, {}, Running)])
    case LockEnter(t, rid, mode) => DoLockEnter(s, t, rid, mode)
    case LockGrant(t) => DoLockGrant(s, t)
    case UpgradeEnter(t, rid) => DoUpgradeEnter(s, t, rid)
    case Unlock(t, rid) => DoUnlock(s, t, rid)
    case Finish(t, commit) => SetTxn(s, t, s.txns[t].(state := if commit then Committed else Aborted))
  }

  /** Whether the step ends with notify_all. */
  predicate Notifies(s: State, a: Step)
    requires Enabled(s, a)
  {
    match a
    case LockGrant(t) => s.txns[t].blocked.mode == Shared
    case Unlock(t, rid) =>
      var list := s.table[rid].list;
      var i := Pos(list, t);
      !UnlockRefused(s, t) && i < |list| && (i == 0 || list[i].mode == Exclusive)
    case _ => false
  }

  /** Transaction t sleeps on a request of its own. */
  ghost predicate Sleeps(s: State, t: nat) {
    && t < |s.txns| && s.txns[t].blocked.Awaits? && s.txns[t].blocked.rid in s.table
    && Pos(s.table[s.txns[t].blocked.rid].list, t) < |s.table[s.txns[t].blocked.rid].list|
  }

  // ----- runs -----------------------------------------------------------------------

  predicate Initial(s: State) { s.txns == [] && s.table == map[] }

  /** Step i leads from run[i] to run[i + 1]. */
  ghost predicate IsRun(run: seq<State>, acts: seq<Step>) {
    && |run| == |acts| + 1 && Initial(run[0])
    && forall i {:trigger StepAt(run, acts, i)} :: 0 <= i < |acts| ==> StepAt(run, acts, i)
  }

  ghost predicate StepAt(run: seq<State>, acts: seq<Step>, i: int)
    requires 0 <= i < |acts| && |run| == |acts| + 1
  {
    Enabled(run[i], acts[i]) && run[i + 1] == Next(run[i], acts[i])
  }

  ghost predicate NoUpgrade(acts: seq<Step>) {
    forall i :: 0 <= i < |acts| ==> !acts[i].UpgradeEnter?
  }

  // ----- the invariant of every reachable state --------------------------------------

  ghost predicate Distinct(list: seq<Request>) {
    forall i, j :: 0 <= i < j < |list| ==> list[i].txn != list[j].txn
  }

  /** Granted requests are a prefix, and a granted exclusive one is the head and alone. */
  ghost predicate GrantsOk(list: seq<Request>) {
    && (forall i, j :: 0 <= i < j < |list| && list[j].granted ==> list[i].granted)
    && (forall i, j :: 0 <= i < |list| && 0 <= j < |list| && i != j && list[i].granted && list[i].mode == Exclusive ==>
          i == 0 && !list[j].granted)
  }

  /** A request is ungranted exactly while its transaction sleeps on it. */
  ghost predicate RequestOk(s: State, rid: int, r: Request) {
    && r.txn < |s.txns|
    && (!r.granted <==> s.txns[r.txn].blocked.Awaits? && s.txns[r.txn].blocked.rid == rid)
    && (!r.granted ==> s.txns[r.txn].blocked.mode == r.mode)
  }

  ghost predicate QueueOk(s: State, rid: int)
    requires rid in s.table
  {
    var list := s.table[rid].list;
    Distinct(list) && GrantsOk(list) && forall i :: 0 <= i < |list| ==> RequestOk(s, rid, list[i])
  }

  /** A sleeping transaction is still growing and has its request in the queue. */
  ghost predicate TxnOk(s: State, t: nat)
    requires t < |s.txns|
  {
    var x := s.txns[t];
    x.blocked.Awaits? ==>
      && x.state == Growing && x.blocked.rid in s.table
      && Pos(s.table[x.blocked.rid].list, t) < |s.table[x.blocked.rid].list|
  }

  ghost predicate Inv(s: State) {
    && |s.txns| <= MAX_TXN
    && (forall rid {:trigger QueueOk(s, rid)} :: rid in s.table ==> QueueOk(s, rid))
    && (forall t {:trigger TxnOk(s, t)} :: 0 <= t < |s.txns| ==> TxnOk(s, t))
  }
}
