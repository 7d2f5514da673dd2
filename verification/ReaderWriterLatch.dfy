/** The reader-writer latch: any number of threads, each critical section one atomic step. */
module ReaderWriterLatch {

  const MAX_READERS: nat := 0xFFFF_FFFF

  /** Where a thread is; a waiting thread sleeps on a condition variable until notified or woken spuriously. */
  datatype Pc =
    | Idle
    | WaitEnter(asleep: bool)  // in the first loop of WLock, on reader_
    | Drain(asleep: bool)      // in the second loop of WLock, on writer_
    | Writing
    | WaitRead(asleep: bool)   // in the loop of RLock, on reader_
    | Reading

  datatype Latch = Latch(readers: nat, entered: bool)

  datatype State = State(latch: Latch, pcs: seq<Pc>)

  // ---- The critical sections ----

  /** The second loop of WLock: wait for the readers inside to leave. */
  function TryDrain(l: Latch): (Latch, Pc) {
    if l.readers > 0 then (l, Drain(true)) else (l, Writing)
  }

  function TryEnter(l: Latch): (Latch, Pc) {
    if l.entered then (l, WaitEnter(true)) else TryDrain(l.(entered := true))
  }

  function TryRead(l: Latch): (Latch, Pc) {
    if l.entered || l.readers == MAX_READERS then (l, WaitRead(true)) else (l.(readers := l.readers + 1), Reading)
  }

  predicate OnReaderCv(pc: Pc) { (pc.WaitEnter? || pc.WaitRead?) && pc.asleep }

  predicate OnWriterCv(pc: Pc) { pc.Drain? && pc.asleep }

  function Wake(pc: Pc): Pc {
    match pc
    case WaitEnter(_) => WaitEnter(false)
    case Drain(_) => Drain(false)
    case WaitRead(_) => WaitRead(false)
    case _ => pc
  }

  /** notify_all on the readers' condition variable. */
  function WakeReaderCv(pcs: seq<Pc>): (r: seq<Pc>)
    ensures |r| == |pcs| && forall i :: 0 <= i < |pcs| ==> r[i] == if OnReaderCv(pcs[i]) then Wake(pcs[i]) else pcs[i]
  {
    seq(|pcs|, i requires 0 <= i < |pcs| => if OnReaderCv(pcs[i]) then Wake(pcs[i]) else pcs[i])
  }

  /** Which condition variable RUnlock notifies one thread of, the count being already lowered. */
  datatype Notice = NoOne | OneWriter | OneReader

  function UnlockNotice(l: Latch): Notice {
    if l.entered then (if l.readers == 0 then OneWriter else NoOne)
    else (if l.readers == MAX_READERS - 1 then OneReader else NoOne)
  }

  predicate Notified(pc: Pc, n: Notice) {
    match n
    case NoOne => false
    case OneWriter => OnWriterCv(pc)
    case OneReader => OnReaderCv(pc)
  }

  // ---- Steps ----

  datatype Step = WLock(t: nat) | RLock(t: nat) | Recheck(t: nat) | WUnlock(t: nat) | RUnlock(t: nat, woken: nat)

  /** RUnlock wakes one of the threads asleep on the notified variable, if there is one. */
  ghost predicate Enabled(s: State, step: Step) {
    && step.t < |s.pcs|
    && match step
       case WLock(t) => s.pcs[t] == Idle
       case RLock(t) => s.pcs[t] == Idle
       case Recheck(t) => s.pcs[t].WaitEnter? || s.pcs[t].Drain? || s.pcs[t].WaitRead?
       case WUnlock(t) => s.pcs[t] == Writing
       case RUnlock(t, w) =>
         && s.pcs[t] == Reading && s.latch.readers > 0
         && var n := UnlockNotice(s.latch.(readers := s.latch.readers - 1));
            (exists i :: 0 <= i < |s.pcs| && Notified(s.pcs[i], n)) ==> w < |s.pcs| && Notified(s.pcs[w], n)
  }

  ghost function Next(s: State, step: Step): State
    requires Enabled(s, step)
  {
    var pc := s.pcs[step.t];
    match step
    case WLock(t) => var (l, pc') := TryEnter(s.latch); State(l, s.pcs[t := pc'])
    case RLock(t) => var (l, pc') := TryRead(s.latch); State(l, s.pcs[t := pc'])
    case Recheck(t) =>
      var (l, pc') :=
        if pc.WaitEnter? then TryEnter(s.latch) else if pc.Drain? then TryDrain(s.latch) else TryRead(s.latch);
      State(l, s.pcs[t := pc'])
    case WUnlock(t) => State(s.latch.(entered := false), WakeReaderCv(s.pcs[t := Idle]))
    case RUnlock(t, w) =>
      var l := s.latch.(readers := s.latch.readers - 1);
      var pcs := s.pcs[t := Idle];
      State(l, if w < |pcs| && Notified(pcs[w], UnlockNotice(l)) then pcs[w := Wake(pcs[w])] else pcs)
  }

  // ---- Safety ----

  function CountReading(pcs: seq<Pc>): nat {
    if pcs == [] then 0 else CountReading(pcs[1..]) + if pcs[0] == Reading then 1 else 0
  }

  predicate InWriter(pc: Pc) { pc.Drain? || pc == Writing }

  /** At most one writer holds or drains the latch, exactly when writer_entered_ is set; the count is the number of
    * readers inside; a writer inside means no reader inside. */
  ghost predicate Inv(s: State) {
    && s.latch.readers == CountReading(s.pcs) && s.latch.readers <= MAX_READERS
    && (forall i, j :: 0 <= i < j < |s.pcs| ==> !(InWriter(s.pcs[i]) && InWriter(s.pcs[j])))
    && (s.latch.entered <==> exists i :: 0 <= i < |s.pcs| && InWriter(s.pcs[i]))
    && ((exists i :: 0 <= i < |s.pcs| && s.pcs[i] == Writing) ==> s.latch.readers == 0)
  }

  lemma {:induction false} CountUpdate(pcs: seq<Pc>, t: nat, pc: Pc)
    requires t < |pcs|
    ensures CountReading(pcs[t := pc]) ==
      CountReading(pcs) - (if pcs[t] == Reading then 1 else 0) + if pc == Reading then 1 else 0
  {
    if t > 0 {
      CountUpdate(pcs[1..], t - 1, pc);
      assert pcs[t := pc][1..] == pcs[1..][t - 1 := pc];
    } else {
      assert pcs[t := pc][1..] == pcs[1..];
    }
  }

  lemma {:induction false} CountSame(a: seq<Pc>, b: seq<Pc>)
    requires |a| == |b| && forall i :: 0 <= i < |a| ==> (a[i] == Reading <==> b[i] == Reading)
    ensures CountReading(a) == CountReading(b)
  {
    if a != [] { CountSame(a[1..], b[1..]); }
  }

  lemma {:induction false} SomeReader(pcs: seq<Pc>) returns (t: nat)
    requires CountReading(pcs) > 0
    ensures t < |pcs| && pcs[t] == Reading
  {
    if pcs[0] == Reading {
      t := 0;
    } else {
      var u := SomeReader(pcs[1..]);
      t := u + 1;
    }
  }

  /** The threads outside are not counted. */
  lemma TwoOutside(pcs: seq<Pc>, t: nat, u: nat)
    requires t < |pcs| && u < |pcs| && t != u && pcs[t] != Reading && pcs[u] != Reading
    ensures CountReading(pcs) + 2 <= |pcs|
  {
    CountUpdate(pcs, t, Reading);
    CountUpdate(pcs[t := Reading], u, Reading);
    CountBound(pcs[t := Reading][u := Reading]);
  }

  lemma CountBound(pcs: seq<Pc>)
    ensures CountReading(pcs) <= |pcs|
  {
  }

  /** One thread tries its critical section. */
  lemma TryInv(s: State, t: nat, l: Latch, pc: Pc)
    requires Inv(s) && t < |s.pcs| && s.pcs[t] != Reading && s.pcs[t] != Writing
    requires if s.pcs[t].Drain? then (l, pc) == TryDrain(s.latch)
             else (l, pc) == TryEnter(s.latch) || (l, pc) == TryRead(s.latch)
    ensures Inv(State(l, s.pcs[t := pc]))
  {
    var s' := State(l, s.pcs[t := pc]);
    CountUpdate(s.pcs, t, pc);
    if InWriter(pc) {
      assert InWriter(s'.pcs[t]);
    } else if s.latch.entered {
      var i :| 0 <= i < |s.pcs| && InWriter(s.pcs[i]);
      assert InWriter(s'.pcs[i]);
    }
    assert forall i :: 0 <= i < |s.pcs| && i != t ==> s'.pcs[i] == s.pcs[i];
  }

  lemma WUnlockInv(s: State, t: nat)
    requires Inv(s) && Enabled(s, WUnlock(t))
    ensures Inv(Next(s, WUnlock(t)))
  {
    var s' := Next(s, WUnlock(t));
    CountUpdate(s.pcs, t, Idle);
    CountSame(s.pcs[t := Idle], s'.pcs);
    assert InWriter(s.pcs[t]);
    forall i | 0 <= i < |s.pcs| ensures !InWriter(s'.pcs[i]) {
      assert i != t ==> !InWriter(s.pcs[i]);
    }
  }

  lemma RUnlockInv(s: State, t: nat, w: nat)
    requires Inv(s) && Enabled(s, RUnlock(t, w))
    ensures Inv(Next(s, RUnlock(t, w)))
  {
    var s' := Next(s, RUnlock(t, w));
    CountUpdate(s.pcs, t, Idle);
    CountSame(s.pcs[t := Idle], s'.pcs);
    assert forall i :: 0 <= i < |s.pcs| ==>
      InWriter(s'.pcs[i]) == InWriter(s.pcs[i]) && (s'.pcs[i] == Writing <==> s.pcs[i] == Writing);
  }

  lemma StepInv(s: State, step: Step)
    requires Inv(s) && Enabled(s, step)
    ensures Inv(Next(s, step))
  {
    match step
    case WUnlock(t) => WUnlockInv(s, t);
    case RUnlock(t, w) => RUnlockInv(s, t, w);
    case _ => TryInv(s, step.t, Next(s, step).latch, Next(s, step).pcs[step.t]);
  }

  /** No new reader enters once a writer has entered. */
  lemma NoNewReader(s: State, step: Step, i: nat)
    requires Enabled(s, step) && s.latch.entered && i < |s.pcs| && Next(s, step).pcs[i] == Reading
    ensures s.pcs[i] == Reading
  {
  }

  // ---- Whole runs ----

  ghost predicate IsRun(s: State, steps: seq<Step>)
    decreases |steps|
  {
    steps != [] ==> Enabled(s, steps[0]) && IsRun(Next(s, steps[0]), steps[1..])
  }

  ghost function After(s: State, steps: seq<Step>): State
    requires IsRun(s, steps)
    decreases |steps|
  {
    if steps == [] then s else After(Next(s, steps[0]), steps[1..])
  }

  /** n threads, none of them in the latch. */
  function Initial(n: nat): State { State(Latch(0, false), seq(n, _ => Idle)) }

  lemma {:induction false} RunInv(s: State, steps: seq<Step>)
    requires Inv(s) && Rested(s) && IsRun(s, steps)
    ensures Inv(After(s, steps)) && Rested(After(s, steps)) && |After(s, steps).pcs| == |s.pcs|
    decreases |steps|
  {
    if steps != [] {
      StepInv(s, steps[0]);
      StepRested(s, steps[0]);
      RunInv(Next(s, steps[0]), steps[1..]);
    }
  }

  lemma {:induction false} CountIdle(pcs: seq<Pc>)
    requires forall i :: 0 <= i < |pcs| ==> pcs[i] == Idle
    ensures CountReading(pcs) == 0
  {
    if pcs != [] { CountIdle(pcs[1..]); }
  }

  /** Every state that n threads can reach is safe, and with at most one thread more than the count can hold nobody
    * sleeps through the event it waits for. */
  lemma EveryRun(n: nat, steps: seq<Step>)
    requires IsRun(Initial(n), steps)
    ensures Inv(After(Initial(n), steps))
    ensures |After(Initial(n), steps).pcs| == n
    ensures n <= MAX_READERS + 1 ==> !SomeoneOversleeps(After(Initial(n), steps))
  {
    var s := Initial(n);
    CountIdle(s.pcs);
    RunInv(s, steps);
    var s' := After(s, steps);
    forall i | 0 <= i < n && n <= MAX_READERS + 1 ensures !Overslept(s', i) {
      assert RestedAt(s', i);
    }
  }

  lemma StepFirst(s: State, step: Step, rest: seq<Step>)
    requires Enabled(s, step) && IsRun(Next(s, step), rest)
    ensures IsRun(s, [step] + rest) && After(s, [step] + rest) == After(Next(s, step), rest)
  {
    assert ([step] + rest)[1..] == rest;
  }

  /** k readers inside and every other thread idle. */
  function Loaded(n: nat, k: nat): State { State(Latch(k, false), seq(n, i => if i < k then Reading else Idle)) }

  /** With two threads more than the count can hold: fill the latch, let two more readers go to sleep and one reader
    * leave. One notification is sent, and the second sleeper stays asleep. */
  lemma {:induction false} Overfill(n: nat, k: nat) returns (steps: seq<Step>)
    requires k <= MAX_READERS && MAX_READERS + 2 <= n
    ensures IsRun(Loaded(n, k), steps) && SomeoneOversleeps(After(Loaded(n, k), steps))
    decreases MAX_READERS - k
  {
    var s := Loaded(n, k);
    if k < MAX_READERS {
      assert Next(s, RLock(k)) == Loaded(n, k + 1);
      var rest := Overfill(n, k + 1);
      steps := [RLock(k)] + rest;
      StepFirst(s, RLock(k), rest);
    } else {
      steps := [RLock(k), RLock(k + 1), RUnlock(0, k)];
      var s1 := Next(s, steps[0]);
      var s2 := Next(s1, steps[1]);
      assert Notified(s2.pcs[k], OneReader);
      var s3 := Next(s2, steps[2]);
      assert Overslept(s3, k + 1);
      StepFirst(s2, steps[2], []);
      StepFirst(s1, steps[1], [steps[2]]);
      StepFirst(s, steps[0], [steps[1], steps[2]]);
    }
  }

  /** A run of n threads after which somebody sleeps through the event it waits for. */
  ghost predicate OversleepingRun(n: nat, steps: seq<Step>) {
    IsRun(Initial(n), steps) && SomeoneOversleeps(After(Initial(n), steps))
  }

  /** No run of n threads oversleeps exactly if n is at most one more than the count can hold. */
  lemma NobodyOversleeps(n: nat)
    ensures (forall steps :: !OversleepingRun(n, steps)) <==> n <= MAX_READERS + 1
  {
    if n <= MAX_READERS + 1 {
      forall steps ensures !OversleepingRun(n, steps) {
        if IsRun(Initial(n), steps) { EveryRun(n, steps); }
      }
    } else {
      assert Initial(n).pcs == Loaded(n, 0).pcs;
      var steps := Overfill(n, 0);
      assert OversleepingRun(n, steps);
    }
  }

  // ---- Sleeping threads ----

  /** Thread i sleeps although what it waits for has come about. */
  ghost predicate Overslept(s: State, i: int)
    requires 0 <= i < |s.pcs|
  {
    match s.pcs[i]
    case WaitEnter(asleep) => asleep && !s.latch.entered
    case Drain(asleep) => asleep && s.latch.readers == 0
    case WaitRead(asleep) => asleep && !s.latch.entered && s.latch.readers < MAX_READERS
    case _ => false
  }

  ghost predicate SomeoneOversleeps(s: State) { exists i :: 0 <= i < |s.pcs| && Overslept(s, i) }

  /** What every step keeps, however many threads there are: with the latch free of writers a sleeping reader waits
    * for the count to leave its maximum, unless there are enough threads for a second sleeper to have taken its
    * notification. */
  ghost predicate RestedAt(s: State, i: int)
    requires 0 <= i < |s.pcs|
  {
    match s.pcs[i]
    case WaitEnter(asleep) => asleep ==> s.latch.entered
    case Drain(asleep) => asleep ==> s.latch.readers > 0
    case WaitRead(asleep) => asleep && !s.latch.entered ==> s.latch.readers == MAX_READERS || |s.pcs| > MAX_READERS + 1
    case _ => true
  }

  ghost predicate Rested(s: State) {
    forall i {:trigger RestedAt(s, i)} :: 0 <= i < |s.pcs| ==> RestedAt(s, i)
  }

  lemma StepRested(s: State, step: Step)
    requires Inv(s) && Enabled(s, step) && Rested(s)
    ensures Rested(Next(s, step))
  {
    var s' := Next(s, step);
    forall i | 0 <= i < |s'.pcs| ensures RestedAt(s', i) {
      assert RestedAt(s, i);
      if step.RUnlock? && OnReaderCv(s.pcs[i]) && !s.latch.entered && s.latch.readers == MAX_READERS {
        assert Notified(s.pcs[i], OneReader);
        if step.woken != i { TwoOutside(s.pcs, step.woken, i); }
      }
    }
  }

  /** A step of another thread wakes thread i only for the event it waits for: a writer has left, the last reader has
    * left a draining writer alone, or the count has dropped from its maximum with no writer inside. */
  lemma WakesForEvent(s: State, step: Step, i: nat)
    requires Enabled(s, step) && i < |s.pcs| && i != step.t
    requires (OnReaderCv(s.pcs[i]) || OnWriterCv(s.pcs[i])) && Next(s, step).pcs[i] != s.pcs[i]
    ensures Next(s, step).pcs[i] == Wake(s.pcs[i])
    ensures if step.WUnlock? then OnReaderCv(s.pcs[i])
            else
              && step.RUnlock? && step.woken == i
              && if OnWriterCv(s.pcs[i]) then s.latch.entered && s.latch.readers == 1
                 else !s.latch.entered && s.latch.readers == MAX_READERS
  {
  }

  predicate Awake(pc: Pc) { (pc.WaitEnter? || pc.Drain? || pc.WaitRead?) && !pc.asleep }

  /** Somebody can always move on: if a thread waits, then a thread inside can leave or an awake thread can look
    * again. */
  lemma SomeoneMoves(s: State, i: nat) returns (t: nat)
    requires Inv(s) && i < |s.pcs| && s.pcs[i] != Idle && !SomeoneOversleeps(s)
    ensures t < |s.pcs|
    ensures s.pcs[t] == Reading || s.pcs[t] == Writing || Awake(s.pcs[t])
  {
    if s.latch.readers > 0 {
      t := SomeReader(s.pcs);
    } else if s.latch.entered {
      t :| 0 <= t < |s.pcs| && InWriter(s.pcs[t]);
      assert !Overslept(s, t);
    } else {
      t := i;
      assert !Overslept(s, i);
    }
  }

  // ---- The latch object ----

  /** Thread t is the only one inside. */
  ghost predicate AloneInside(pcs: seq<Pc>, t: int) {
    forall i :: 0 <= i < |pcs| && i != t ==> !InWriter(pcs[i]) && pcs[i] != Reading
  }

  lemma {:induction false} NoneCounted(pcs: seq<Pc>, i: nat)
    requires CountReading(pcs) == 0 && i < |pcs|
    ensures pcs[i] != Reading
  {
    if i > 0 { NoneCounted(pcs[1..], i - 1); }
  }

  /** A writer that is through its second loop is alone. */
  lemma WriterAlone(s: State, t: nat)
    requires Inv(s) && t < |s.pcs| && s.pcs[t] == Writing
    ensures AloneInside(s.pcs, t)
  {
    forall i | 0 <= i < |s.pcs| && i != t ensures !InWriter(s.pcs[i]) && s.pcs[i] != Reading {
      NoneCounted(s.pcs, i);
      assert InWriter(s.pcs[t]);
    }
  }

  /** The latch with the threads that use it. Each method is what one thread does from taking the mutex to waiting or
    * leaving. */
  class RWMutex {
    var readerCount: nat
    var writerEntered: bool
    var pcs: seq<Pc>

    ghost function Snapshot(): State
      reads this
    {
      State(Latch(readerCount, writerEntered), pcs)
    }

    ghost predicate Valid()
      reads this
    {
      Inv(Snapshot()) && Rested(Snapshot())
    }

    constructor (n: nat)
      ensures Valid() && Snapshot() == Initial(n)
    {
      readerCount, writerEntered, pcs := 0, false, seq(n, _ => Idle);
      new;
      CountIdle(pcs);
    }

    /** What every method keeps, once its new values are those of the step. */
    lemma Stepped(s: State, step: Step)
      requires Inv(s) && Rested(s) && Enabled(s, step) && Snapshot() == Next(s, step)
      ensures Valid()
    {
      StepInv(s, step);
      StepRested(s, step);
    }

    /** WLock, from the top of its first loop: the caller is alone inside, or asleep in one of the two loops. */
    method WLock(t: nat) returns (inside: bool)
      requires Valid() && Enabled(Snapshot(), Step.WLock(t))
      modifies this
      ensures Valid() && Snapshot() == Next(old(Snapshot()), Step.WLock(t))
      ensures if inside then pcs[t] == Writing && AloneInside(pcs, t) else OnReaderCv(pcs[t]) || OnWriterCv(pcs[t])
    {
      ghost var s := Snapshot();
      if writerEntered {
        inside, pcs := false, pcs[t := WaitEnter(true)];
      } else {
        writerEntered := true;
        inside := readerCount == 0;
        pcs := pcs[t := if inside then Writing else Drain(true)];
      }
      Stepped(s, Step.WLock(t));
      if inside { WriterAlone(Snapshot(), t); }
    }

    lemma DrainingHasEntered(s: State, t: nat)
      requires Inv(s) && t < |s.pcs|
      ensures s.pcs[t].Drain? ==> s.latch.entered
    {
      assert s.pcs[t].Drain? ==> InWriter(s.pcs[t]);
    }

    /** A waiting thread looks again at the condition of its loop. */
    method LookAgain(t: nat) returns (inside: bool)
      requires Valid() && Enabled(Snapshot(), Recheck(t))
      modifies this
      ensures Valid() && Snapshot() == Next(old(Snapshot()), Recheck(t))
      ensures inside <==> pcs[t] == Writing || pcs[t] == Reading
      ensures pcs[t] == Writing ==> AloneInside(pcs, t)
    {
      ghost var s := Snapshot();
      inside := false;
      if pcs[t].WaitRead? {
        inside := !writerEntered && readerCount != MAX_READERS;
        if inside { readerCount := readerCount + 1; }
        pcs := pcs[t := if inside then Reading else WaitRead(true)];
      } else if pcs[t].WaitEnter? && writerEntered {
        pcs := pcs[t := WaitEnter(true)];
      } else {
        writerEntered := true;
        inside := readerCount == 0;
        pcs := pcs[t := if inside then Writing else Drain(true)];
      }
      DrainingHasEntered(s, t);
      Stepped(s, Recheck(t));
      if pcs[t] == Writing { WriterAlone(Snapshot(), t); }
    }

    /** WUnlock wakes everybody who sleeps on the readers' condition variable. */
    method WUnlock(t: nat)
      requires Valid() && Enabled(Snapshot(), Step.WUnlock(t))
      modifies this
      ensures Valid() && Snapshot() == Next(old(Snapshot()), Step.WUnlock(t))
      ensures AloneInside(pcs, t) && pcs[t] == Idle && forall i :: 0 <= i < |pcs| ==> !OnReaderCv(pcs[i])
    {
      ghost var s := Snapshot();
      WriterAlone(s, t);
      writerEntered := false;
      pcs := WakeReaderCv(pcs[t := Idle]);
      Stepped(s, Step.WUnlock(t));
    }

    /** RLock, from the top of its loop: the caller is inside and no writer is, or it sleeps. */
    method RLock(t: nat) returns (inside: bool)
      requires Valid() && Enabled(Snapshot(), Step.RLock(t))
      modifies this
      ensures Valid() && Snapshot() == Next(old(Snapshot()), Step.RLock(t))
      ensures if inside then pcs[t] == Reading && (forall i :: 0 <= i < |pcs| ==> !InWriter(pcs[i]))
              else OnReaderCv(pcs[t])
    {
      ghost var s := Snapshot();
      inside := !writerEntered && readerCount != MAX_READERS;
      if inside { readerCount := readerCount + 1; }
      pcs := pcs[t := if inside then Reading else WaitRead(true)];
      Stepped(s, Step.RLock(t));
    }

    /** RUnlock wakes a draining writer when it was the last reader. The thread w to wake is the scheduler's choice. */
    method RUnlock(t: nat, w: nat)
      requires Valid() && Enabled(Snapshot(), Step.RUnlock(t, w))
      modifies this
      ensures Valid() && Snapshot() == Next(old(Snapshot()), Step.RUnlock(t, w)) && pcs[t] == Idle
      ensures readerCount == 0 ==> forall i :: 0 <= i < |pcs| ==> !OnWriterCv(pcs[i])
    {
      ghost var s := Snapshot();
      readerCount := readerCount - 1;
      pcs := pcs[t := Idle];
      if writerEntered {
        if readerCount == 0 { NotifyOne(w, OneWriter); }
      } else {
        if readerCount == MAX_READERS - 1 { NotifyOne(w, OneReader); }
      }
      Stepped(s, Step.RUnlock(t, w));
      forall i | 0 <= i < |pcs| && readerCount == 0 ensures !OnWriterCv(pcs[i]) { assert RestedAt(Snapshot(), i); }
    }

    method NotifyOne(w: nat, n: Notice)
      modifies this`pcs
      ensures pcs == if w < |old(pcs)| && Notified(old(pcs)[w], n) then old(pcs)[w := Wake(old(pcs)[w])] else old(pcs)
    {
      if w < |pcs| && Notified(pcs[w], n) {
        pcs := pcs[w := Wake(pcs[w])];
      }
    }
  }
}
