/** What holds over whole runs of the monitor: mutual exclusion, no lost wake-up, and
    Hoare's hand-off. */
module MonitorRuns {
  import opened Semaphores
  import opened Counting
  import opened Monitor
  import opened MonitorSteps

  // ---------- runs ----------

  ghost predicate StepAt(t: seq<State>, k: nat)
    requires k + 1 < |t|
  {
    Next(t[k], t[k + 1])
  }

  ghost predicate IsRun(t: seq<State>) {
    && t != [] && Init(t[0])
    && forall k :: 0 <= k < |t| - 1 ==> StepAt(t, k)
  }

  lemma {:induction false} RunKeepsInv(t: seq<State>, k: nat)
    requires IsRun(t) && k < |t|
    ensures Inv(t[k])
  {
    if k == 0 {
      InitHasInv(t[0]);
    } else {
      RunKeepsInv(t, k - 1);
      assert StepAt(t, k - 1);
      var a :| Enabled(t[k - 1], a) && t[k] == Apply(t[k - 1], a);
      StepKeepsInv(t[k - 1], a);
    }
  }

  /** In every reachable state exactly one unit exists, so at most one process
      is in the monitor; the counters count what they are named after. */
  lemma MutualExclusion(t: seq<State>, k: nat)
    requires IsRun(t) && k < |t|
    ensures Units(t[k]) == 1
    ensures forall p, q :: 0 <= p < q < |t[k].pc| ==> !(IsHolder(t[k].pc[p]) && IsHolder(t[k].pc[q]))
    ensures forall p :: 0 <= p < |t[k].pc| && IsHolder(t[k].pc[p]) ==> t[k].mutex.value == 0
    ensures t[k].nextCount == CountIf(t[k].pc, IsSignaller)
    ensures forall c :: 0 <= c < |t[k].cv| ==> t[k].cv[c].count == CountIf(t[k].pc, WaiterOn(c))
  {
    RunKeepsInv(t, k);
    forall p | 0 <= p < |t[k].pc| && IsHolder(t[k].pc[p])
      ensures t[k].mutex.value == 0
      ensures forall q :: 0 <= q < |t[k].pc| && q != p ==> !IsHolder(t[k].pc[q])
    {
      HolderIsAlone(t[k], p);
    }
  }

  ghost predicate Quiescent(m: State) {
    forall p :: 0 <= p < |m.pc| ==> m.pc[p].Outside? || Asleep(m.pc[p])
  }

  lemma NoUnitAtNext(m: State)
    requires Inv(m) && Quiescent(m)
    ensures m.next.value == 0
  {
    if m.nextCount > 0 {
      var p := CountIfWitness(m.pc, IsSignaller);
      assert p in m.next.queue;
    }
  }

  lemma NoUnitAtConds(m: State)
    requires Inv(m) && Quiescent(m)
    ensures forall c :: 0 <= c < |m.cv| ==> m.cv[c].sem.value == 0
  {
    forall c | 0 <= c < |m.cv| ensures m.cv[c].sem.value == 0 {
      if m.cv[c].count > 0 {
        var p := CountIfWitness(m.pc, WaiterOn(c));
        assert p in m.cv[c].sem.queue;
      }
    }
  }

  /** No unit is ever lost: when every process is outside or asleep, the mutex
      is free, nobody is stuck at the entry or as a suspended signaller, and
      the sleepers are exactly the waiters on condition variables. */
  lemma QuiescentMonitorIsFree(m: State)
    requires Inv(m) && Quiescent(m)
    ensures m.mutex == Sem(1, []) && m.next == Sem(0, []) && m.nextCount == 0
    ensures forall p :: 0 <= p < |m.pc| ==> m.pc[p].Outside? || m.pc[p].CondQueue?
  {
    assert m.next.queue == [] || m.next.queue[0] in m.next.queue;
    NoUnitAtNext(m);
    NoUnitAtConds(m);
    ZeroSum(CondValues(m.cv));
    CountIfZero(m.pc, IsHolder);
    CountIfNone(m.pc, IsSignaller);
    forall p | 0 <= p < |m.pc| ensures m.pc[p].Outside? || m.pc[p].CondQueue? {
      assert p in m.mutex.queue <==> m.pc[p] == MutexQueue;
    }
  }

  // ---------- Hoare hand-off ----------

  ghost predicate NobodyInside(m: State) {
    forall p :: 0 <= p < |m.pc| ==> !m.pc[p].Inside?
  }

  /** The unit is at condition variable c, free or just taken by a waiter. */
  ghost predicate UnitAtCond(m: State, c: nat) {
    && c < |m.cv|
    && (m.cv[c].sem.value == 1 || exists q :: 0 <= q < |m.pc| && m.pc[q] == WaitBack(c))
  }

  ghost predicate WaitersWithin(m: State, m0: State, c: nat) {
    && |m.pc| == |m0.pc|
    && forall q :: 0 <= q < |m.pc| && IsWaiter(m.pc[q], c) ==> IsWaiter(m0.pc[q], c)
  }

  lemma UnitAtCondIsAlone(m: State, c: nat)
    requires Inv(m) && UnitAtCond(m, c)
    ensures m.mutex.value == 0 && m.next.value == 0
    ensures forall p :: 0 <= p < |m.pc| && IsHolder(m.pc[p]) ==> m.pc[p] == WaitBack(c)
  {
    if q :| 0 <= q < |m.pc| && m.pc[q] == WaitBack(c) {
      HolderIsAlone(m, q);
    } else {
      var vs := CondValues(m.cv);
      SumNonNegative(vs);
      assert vs[c] <= Sum(vs);
      CountIfNone(m.pc, IsHolder);
    }
  }

  lemma SignalMovesUnit(m: State, p: Pid, c: nat)
    requires Inv(m) && Enabled(m, SignalPost(p, c))
    ensures var m' := Apply(m, SignalPost(p, c));
            UnitAtCond(m', c) && NobodyInside(m') && WaitersWithin(m', m, c)
  {
    HolderIsAlone(m, p);
    var q := m.cv[c].sem.queue;
    if q != [] {
      assert q[0] in q;
      assert Apply(m, SignalPost(p, c)).pc[q[0]] == WaitBack(c);
    }
  }

  /** While the unit is at c, the only process that can get inside is a waiter
      on c; everything else leaves the unit where it is. */
  lemma UnitStaysAtCond(m: State, a: Step, c: nat)
    requires Inv(m) && UnitAtCond(m, c) && NobodyInside(m) && Enabled(m, a)
    ensures var m' := Apply(m, a);
            || (UnitAtCond(m', c) && NobodyInside(m') && WaitersWithin(m', m, c))
            || (a.WaitReturn? && forall q :: 0 <= q < |m'.pc| && m'.pc[q].Inside? ==> IsWaiter(m.pc[q], c))
  {
    UnitAtCondIsAlone(m, c);
    var m' := Apply(m, a);
    if m.cv[c].sem.value != 1 {
      var q :| 0 <= q < |m.pc| && m.pc[q] == WaitBack(c);
      if !a.WaitReturn? {
        assert m'.pc[q] == WaitBack(c);
      }
    } else if a.WaitBlock? && m.pc[a.p] == WaitPosted(c) {
      assert m'.pc[a.p] == WaitBack(c);
    }
  }

  /** m follows a signal on c given in m0, with nobody inside in between. */
  ghost predicate Pending(m: State, m0: State, c: nat) {
    && |m.pc| == |m0.pc|
    && (NobodyInside(m) ==> UnitAtCond(m, c) && WaitersWithin(m, m0, c))
    && (forall q :: 0 <= q < |m.pc| && m.pc[q].Inside? ==> IsWaiter(m0.pc[q], c))
  }

  lemma PendingStep(m: State, m': State, m0: State, c: nat)
    requires Inv(m) && Pending(m, m0, c) && NobodyInside(m) && Next(m, m')
    ensures Pending(m', m0, c)
  {
    var a :| Enabled(m, a) && m' == Apply(m, a);
    UnitStaysAtCond(m, a, c);
    assert |m'.pc| == |m.pc|;
    if a.WaitReturn? {
      assert m'.pc[a.p].Inside?;
    }
  }

  /** p gives a signal on c that finds a waiter. */
  ghost predicate Signals(m: State, m': State, p: Pid, c: nat) {
    Enabled(m, SignalPost(p, c)) && m' == Apply(m, SignalPost(p, c))
  }

  lemma SignalStartsPending(m: State, m': State, p: Pid, c: nat)
    requires Inv(m) && Signals(m, m', p, c)
    ensures Pending(m', m, c)
  {
    SignalMovesUnit(m, p, c);
  }

  lemma {:induction false} PendingUntilInside(t: seq<State>, i: nat, j: nat, m0: State, c: nat)
    requires IsRun(t) && i <= j < |t| && Pending(t[i], m0, c)
    requires forall k :: i <= k < j ==> NobodyInside(t[k])
    ensures Pending(t[j], m0, c)
  {
    if j > i {
      PendingUntilInside(t, i, j - 1, m0, c);
      RunKeepsInv(t, j - 1);
      assert StepAt(t, j - 1);
      PendingStep(t[j - 1], t[j], m0, c);
    }
  }

  /** Hoare semantics: after a signal on c that found a waiter, the next process
      ever to be inside the monitor is one that was waiting on c when the signal
      was given, so what the signaller established still holds for it. */
  lemma HoareHandOff(t: seq<State>, i: nat, j: nat, p: Pid, c: nat, q: Pid)
    requires IsRun(t) && i < j < |t| && Signals(t[i], t[i + 1], p, c)
    requires forall k :: i < k < j ==> NobodyInside(t[k])
    requires q < |t[j].pc| && t[j].pc[q].Inside?
    ensures q < |t[i].pc| && IsWaiter(t[i].pc[q], c)
  {
    RunKeepsInv(t, i);
    SignalStartsPending(t[i], t[i + 1], p, c);
    PendingUntilInside(t, i + 1, j, t[i], c);
  }
}
