/** Every step of the monitor keeps its invariant (kern/sync/monitor.c), and what a
    step does to the other processes. */
module MonitorSteps {
  import opened Semaphores
  import opened Counting
  import opened Monitor

  // ---------- every transition keeps the invariant ----------

  lemma EnterKeepsQueues(m: State, p: Pid)
    requires QueuesAgree(m) && Enabled(m, Enter(p))
    ensures QueuesAgree(Apply(m, Enter(p)))
  {
    if !Passes(m.mutex) {
      QueueBack(m.mutex.queue, m.pc, MutexQueue, p);
    }
  }

  lemma EnterKeepsInv(m: State, p: Pid)
    requires Inv(m) && Enabled(m, Enter(p))
    ensures Inv(Apply(m, Enter(p)))
  {
    EnterKeepsQueues(m, p);
    CountsAfter(m.pc, p, if Passes(m.mutex) then Inside else MutexQueue);
  }

  /** The signaller has counted itself and let go of the monitor. */
  lemma SignallerLetsGo(m: State, p: Pid)
    requires Inv(m) && p < |m.pc| && m.pc[p].Inside?
    ensures var m1 := SetPC(m.(nextCount := m.nextCount + 1), p, Signalled);
            Core(m1) && Units(m1) == 0
  {
    AwakeMoveKeepsQueues(m, p, Signalled);
    CountsAfter(m.pc, p, Signalled);
  }

  lemma SignalPostKeepsInv(m: State, p: Pid, c: nat)
    requires Inv(m) && Enabled(m, SignalPost(p, c))
    ensures Inv(Apply(m, SignalPost(p, c)))
  {
    var m1 := SetPC(m.(nextCount := m.nextCount + 1), p, Signalled);
    SignallerLetsGo(m, p);
    NoUnitsMeansNoneFree(m1);
    UpCondAddsUnit(m1, c);
  }

  lemma SignalBlockKeepsQueues(m: State, p: Pid)
    requires QueuesAgree(m) && Enabled(m, SignalBlock(p))
    ensures QueuesAgree(Apply(m, SignalBlock(p)))
  {
    if !Passes(m.next) {
      QueueBack(m.next.queue, m.pc, NextQueue, p);
    }
  }

  lemma SignalBlockKeepsInv(m: State, p: Pid)
    requires Inv(m) && Enabled(m, SignalBlock(p))
    ensures Inv(Apply(m, SignalBlock(p)))
  {
    SignalBlockKeepsQueues(m, p);
    CountsAfter(m.pc, p, if Passes(m.next) then SignalBack else NextQueue);
  }

  lemma SignalReturnKeepsInv(m: State, p: Pid)
    requires Inv(m) && Enabled(m, SignalReturn(p))
    ensures Inv(Apply(m, SignalReturn(p)))
  {
    HolderIsAlone(m, p);
    AwakeMoveKeepsQueues(m, p, Inside);
    CountsAfter(m.pc, p, Inside);
  }

  /** The waiter has counted itself and let go of the monitor. */
  lemma WaiterLetsGo(m: State, p: Pid, c: nat)
    requires Inv(m) && p < |m.pc| && m.pc[p].Inside? && c < |m.cv|
    ensures var d := m.cv[c].(count := m.cv[c].count + 1);
            var m1 := SetPC(m.(cv := m.cv[c := d]), p, WaitPosted(c));
            Core(m1) && Units(m1) == 0
  {
    AwakeMoveKeepsQueues(m, p, WaitPosted(c));
    CountsAfter(m.pc, p, WaitPosted(c));
    CondValuesAfter(m.cv, c, m.cv[c].(count := m.cv[c].count + 1));
  }

  lemma WaitPostKeepsInv(m: State, p: Pid, c: nat)
    requires Inv(m) && Enabled(m, WaitPost(p, c))
    ensures Inv(Apply(m, WaitPost(p, c)))
  {
    WaiterLetsGo(m, p, c);
    var d := m.cv[c].(count := m.cv[c].count + 1);
    var m1 := SetPC(m.(cv := m.cv[c := d]), p, WaitPosted(c));
    assert Inv(Release(m1)) by {
      ReleaseRestoresInv(m1);
    }
  }

  lemma WaitBlockKeepsQueues(m: State, p: Pid)
    requires QueuesAgree(m) && Enabled(m, WaitBlock(p))
    ensures QueuesAgree(Apply(m, WaitBlock(p)))
  {
    var c, m' := m.pc[p].c, Apply(m, WaitBlock(p));
    var s := m.cv[c].sem;
    if !Passes(s) {
      QueueBack(s.queue, m.pc, CondQueue(c), p);
      forall d | 0 <= d < |m.cv|
        ensures Lawful(m'.cv[d].sem) && QueueHolds(m'.cv[d].sem.queue, m'.pc, CondQueue(d))
      {
      }
    }
  }

  lemma WaitBlockKeepsCounts(m: State, p: Pid)
    requires CountsAgree(m) && CondsInRange(m) && Enabled(m, WaitBlock(p))
    ensures CountsAgree(Apply(m, WaitBlock(p))) && CondsInRange(Apply(m, WaitBlock(p)))
  {
    var c := m.pc[p].c;
    CountsAfter(m.pc, p, if Passes(m.cv[c].sem) then WaitBack(c) else CondQueue(c));
  }

  lemma WaitBlockKeepsUnits(m: State, p: Pid)
    requires CondsInRange(m) && Enabled(m, WaitBlock(p))
    ensures Units(Apply(m, WaitBlock(p))) == Units(m)
  {
    var c := m.pc[p].c;
    var s := m.cv[c].sem;
    CondValuesAfter(m.cv, c, m.cv[c].(sem := Acquired(s, p)));
    CountsAfter(m.pc, p, if Passes(s) then WaitBack(c) else CondQueue(c));
  }

  lemma WaitBlockKeepsInv(m: State, p: Pid)
    requires Inv(m) && Enabled(m, WaitBlock(p))
    ensures Inv(Apply(m, WaitBlock(p)))
  {
    WaitBlockKeepsQueues(m, p);
    WaitBlockKeepsCounts(m, p);
    WaitBlockKeepsUnits(m, p);
  }

  lemma WaitReturnKeepsInv(m: State, p: Pid)
    requires Inv(m) && Enabled(m, WaitReturn(p))
    ensures Inv(Apply(m, WaitReturn(p)))
  {
    HolderIsAlone(m, p);
    AwakeMoveKeepsQueues(m, p, Inside);
    WaitReturnKeepsCounts(m, p);
    WaitReturnKeepsUnits(m, p);
  }

  lemma WaitReturnKeepsCounts(m: State, p: Pid)
    requires CountsAgree(m) && CondsInRange(m) && Enabled(m, WaitReturn(p))
    ensures CountsAgree(Apply(m, WaitReturn(p))) && CondsInRange(Apply(m, WaitReturn(p)))
  {
    CountsAfter(m.pc, p, Inside);
  }

  lemma WaitReturnKeepsUnits(m: State, p: Pid)
    requires CondsInRange(m) && Enabled(m, WaitReturn(p))
    ensures Units(Apply(m, WaitReturn(p))) == Units(m)
  {
    var c := m.pc[p].c;
    CondValuesAfter(m.cv, c, m.cv[c].(count := m.cv[c].count - 1));
    CountsAfter(m.pc, p, Inside);
  }

  lemma LeaveKeepsInv(m: State, p: Pid)
    requires Inv(m) && Enabled(m, Leave(p))
    ensures Inv(Apply(m, Leave(p)))
  {
    LeaverLetsGo(m, p);
    ReleaseRestoresInv(SetPC(m, p, Outside));
  }

  lemma LeaverLetsGo(m: State, p: Pid)
    requires Inv(m) && p < |m.pc| && m.pc[p].Inside?
    ensures Core(SetPC(m, p, Outside)) && Units(SetPC(m, p, Outside)) == 0
  {
    AwakeMoveKeepsQueues(m, p, Outside);
    CountsAfter(m.pc, p, Outside);
  }

  lemma StepKeepsInv(m: State, a: Step)
    requires Inv(m) && Enabled(m, a)
    ensures Inv(Apply(m, a))
  {
    match a
    case Enter(p) => EnterKeepsInv(m, p);
    case SignalNobody(_, _) =>
    case SignalPost(p, c) => SignalPostKeepsInv(m, p, c);
    case SignalBlock(p) => SignalBlockKeepsInv(m, p);
    case SignalReturn(p) => SignalReturnKeepsInv(m, p);
    case WaitPost(p, c) => WaitPostKeepsInv(m, p, c);
    case WaitBlock(p) => WaitBlockKeepsInv(m, p);
    case WaitReturn(p) => WaitReturnKeepsInv(m, p);
    case Leave(p) => LeaveKeepsInv(m, p);
  }

  lemma InitHasInv(m: State)
    requires Init(m)
    ensures Inv(m)
  {
    CountIfZero(m.pc, IsHolder);
    CountIfZero(m.pc, IsSignaller);
    forall c: nat ensures CountIf(m.pc, WaiterOn(c)) == 0 {
      CountIfZero(m.pc, WaiterOn(c));
    }
    ZeroSum(CondValues(m.cv));
  }

  lemma {:induction false} ZeroSum(s: seq<int>)
    requires forall i :: 0 <= i < |s| ==> s[i] == 0
    ensures Sum(s) == 0
  {
    if s != [] {
      ZeroSum(s[1..]);
    }
  }

  // ---------- what a transition does to the other processes ----------

  /** The only change a process can suffer while another one gives the monitor
      away is to be woken at the entry or as a suspended signaller. */
  ghost predicate SameOrAdmitted(x: PC, y: PC) {
    y == x || (x.MutexQueue? && y.Inside?) || (x.NextQueue? && y.SignalBack?)
  }

  lemma ReleaseEffect(m: State)
    requires QueuesAgree(m)
    ensures var m' := Release(m);
            && m'.cv == m.cv && |m'.pc| == |m.pc|
            && forall k :: 0 <= k < |m.pc| ==> SameOrAdmitted(m.pc[k], m'.pc[k])
  {
    var q := if m.nextCount > 0 then m.next.queue else m.mutex.queue;
    assert q == [] || q[0] in q;
  }

  lemma LeaveEffect(m: State, p: Pid)
    requires QueuesAgree(m) && Enabled(m, Leave(p))
    ensures var m' := Apply(m, Leave(p));
            && m'.cv == m.cv && |m'.pc| == |m.pc| && m'.pc[p] == Outside
            && forall k :: 0 <= k < |m.pc| && k != p ==> SameOrAdmitted(m.pc[k], m'.pc[k])
  {
    AwakeMoveKeepsQueues(m, p, Outside);
    ReleaseEffect(SetPC(m, p, Outside));
    assert SameOrAdmitted(Outside, Apply(m, Leave(p)).pc[p]);
  }

  lemma WaitPostEffect(m: State, p: Pid, c: nat)
    requires QueuesAgree(m) && Enabled(m, WaitPost(p, c))
    ensures var m' := Apply(m, WaitPost(p, c));
            && m'.cv == m.cv[c := m.cv[c].(count := m.cv[c].count + 1)]
            && |m'.pc| == |m.pc| && m'.pc[p] == WaitPosted(c)
            && forall k :: 0 <= k < |m.pc| && k != p ==> SameOrAdmitted(m.pc[k], m'.pc[k])
  {
    var m1 := m.(cv := m.cv[c := m.cv[c].(count := m.cv[c].count + 1)]);
    AwakeMoveKeepsQueues(m1, p, WaitPosted(c));
    ReleaseEffect(SetPC(m1, p, WaitPosted(c)));
    assert SameOrAdmitted(WaitPosted(c), Apply(m, WaitPost(p, c)).pc[p]);
  }

  /** A signal wakes the first sleeper of the condition variable, or leaves the
      unit in its semaphore for a waiter that has not gone to sleep yet. */
  lemma SignalPostEffect(m: State, p: Pid, c: nat)
    requires QueuesAgree(m) && Enabled(m, SignalPost(p, c))
    ensures var m' := Apply(m, SignalPost(p, c)); var q := m.cv[c].sem.queue;
            && |m'.cv| == |m.cv| && |m'.pc| == |m.pc| && m'.pc[p] == Signalled
            && (forall d :: 0 <= d < |m.cv| && d != c ==> m'.cv[d] == m.cv[d])
            && m'.cv[c].sem.value == m.cv[c].sem.value + (if q == [] then 1 else 0)
            && (q != [] ==> q[0] < |m.pc| && q[0] != p && m'.pc[q[0]] == WaitBack(c))
            && forall k :: 0 <= k < |m.pc| && k != p && (q != [] ==> k != q[0]) ==> m'.pc[k] == m.pc[k]
  {
    var q := m.cv[c].sem.queue;
    assert q == [] || q[0] in q;
  }
}
