/** Dining philosophers with condition variables (kern/sync/check_sync.c,
    phi_*_condvar), for any number of philosophers, on top of the monitor. */
module PhilosophersMonitor {
  import opened Counting
  import opened Table
  import M = Monitor
  import S = MonitorSteps
  import R = MonitorRuns

  /** The next thing philosopher i does when it runs inside the monitor. */
  datatype Loc =
    | Away          // thinking, outside
    | Trying        // take_forks: about to become hungry and test itself
    | Checking      // take_forks: about to decide whether to wait
    | TakeLeaving   // take_forks: about to leave the monitor
    | AtTable       // take_forks has returned
    | Putting       // put_forks: about to stop eating
    | TestingLeft
    | TestingRight
    | PutLeaving

  datatype State = State(m: M.State, st: seq<Phase>, loc: seq<Loc>)

  datatype Step =
    | BeginTake(i: nat) | Try(i: nat) | Check(i: nat) | EndTake(i: nat)
    | BeginPut(i: nat) | PutDown(i: nat) | TestLeft(i: nat) | TestRight(i: nat) | EndPut(i: nat)
    | Block(i: nat, a: M.Step)    // the blocking halves of cond_signal and cond_wait

  ghost predicate Shape(s: State) {
    |s.st| == |s.loc| == |s.m.pc| == |s.m.cv| >= 2
  }

  ghost predicate Enabled(s: State, a: Step) {
    && Shape(s) && a.i < |s.st|
    && match a
       case BeginTake(i) => s.loc[i].Away? && s.m.pc[i].Outside?
       case Try(i) => s.loc[i].Trying? && s.m.pc[i].Inside?
       case Check(i) => s.loc[i].Checking? && s.m.pc[i].Inside?
       case EndTake(i) => s.loc[i].TakeLeaving? && s.m.pc[i].Inside?
       case BeginPut(i) => s.loc[i].AtTable? && s.m.pc[i].Outside?
       case PutDown(i) => s.loc[i].Putting? && s.m.pc[i].Inside?
       case TestLeft(i) => s.loc[i].TestingLeft? && s.m.pc[i].Inside?
       case TestRight(i) => s.loc[i].TestingRight? && s.m.pc[i].Inside?
       case EndPut(i) => s.loc[i].PutLeaving? && s.m.pc[i].Inside?
       case Block(i, b) =>
         && b.p == i && M.Enabled(s.m, b)
         && (b.SignalBlock? || b.SignalReturn? || b.WaitBlock? || b.WaitReturn?)
  }

  /** cond_signal up to its first semaphore operation. */
  ghost function CondSignal(m: M.State, i: nat, c: nat): M.State
    requires i < |m.pc| && c < |m.cv| && m.pc[i].Inside?
  {
    if m.cv[c].count > 0 then M.Apply(m, M.SignalPost(i, c)) else m
  }

  /** phi_test_condvar(j) called by philosopher i. */
  ghost function PhiTest(s: State, i: nat, j: nat): State
    requires Shape(s) && i < |s.st| && j < |s.st| && s.m.pc[i].Inside?
  {
    if MayEat(s.st, j) then s.(st := s.st[j := Eating], m := CondSignal(s.m, i, j)) else s
  }

  ghost function Apply(s: State, a: Step): State
    requires Enabled(s, a)
  {
    var n := |s.st|;
    match a
    case BeginTake(i) => s.(m := M.Apply(s.m, M.Enter(i)), loc := s.loc[i := Trying])
    case Try(i) => PhiTest(s.(st := s.st[i := Hungry], loc := s.loc[i := Checking]), i, i)
    case Check(i) =>
      var s' := s.(loc := s.loc[i := TakeLeaving]);
      if !s.st[i].Eating? then s'.(m := M.Apply(s.m, M.WaitPost(i, i))) else s'
    case EndTake(i) => s.(m := M.Apply(s.m, M.Leave(i)), loc := s.loc[i := AtTable])
    case BeginPut(i) => s.(m := M.Apply(s.m, M.Enter(i)), loc := s.loc[i := Putting])
    case PutDown(i) => s.(st := s.st[i := Thinking], loc := s.loc[i := TestingLeft])
    case TestLeft(i) => PhiTest(s.(loc := s.loc[i := TestingRight]), i, Left(i, n))
    case TestRight(i) => PhiTest(s.(loc := s.loc[i := PutLeaving]), i, Right(i, n))
    case EndPut(i) => s.(m := M.Apply(s.m, M.Leave(i)), loc := s.loc[i := Away])
    case Block(_, b) => s.(m := M.Apply(s.m, b))
  }

  ghost predicate Next(s: State, s': State) {
    exists a :: Enabled(s, a) && s' == Apply(s, a)
  }

  ghost predicate Init(s: State) {
    && Shape(s) && M.Init(s.m)
    && (forall i :: 0 <= i < |s.st| ==> s.st[i].Thinking? && s.loc[i].Away?)
  }

  // ---------- the invariant ----------

  ghost predicate Entering(x: M.PC) {
    x.MutexQueue? || x.Inside?
  }

  ghost predicate InsideOrSignalling(x: M.PC) {
    x.Inside? || M.IsSignaller(x)
  }

  /** What program counter, routine and phase of one philosopher have to do with
      each other. */
  ghost predicate Local(s: State, i: nat)
    requires Shape(s) && i < |s.st|
  {
    var x, ph := s.m.pc[i], s.st[i];
    match s.loc[i]
    case Away => x.Outside? && ph.Thinking?
    case Trying => Entering(x) && ph.Thinking?
    case Checking => x.Inside? && !ph.Thinking?
    case TakeLeaving =>
      || ((x.Inside? || x == M.WaitBack(i)) && ph.Eating?)
      || (x == M.CondQueue(i) && ph.Hungry?)
      || (x == M.WaitPosted(i) && ph == if s.m.cv[i].sem.value > 0 then Eating else Hungry)
    case AtTable => x.Outside? && ph.Eating?
    case Putting => Entering(x) && ph.Eating?
    case TestingLeft => x.Inside? && ph.Thinking?
    case TestingRight => InsideOrSignalling(x) && ph.Thinking?
    case PutLeaving => InsideOrSignalling(x) && ph.Thinking?
  }

  /** A hungry philosopher has an eating neighbour, or a neighbour that is still
      going to test it. */
  ghost predicate Covered(s: State, j: nat)
    requires Shape(s) && j < |s.st|
  {
    s.st[j].Hungry? ==>
      || EatingNeighbour(s.st, j)
      || s.loc[Right(j, |s.st|)].TestingLeft?
      || s.loc[Left(j, |s.st|)].TestingLeft?
      || s.loc[Left(j, |s.st|)].TestingRight?
  }

  ghost predicate AllLocal(s: State)
    requires Shape(s)
  {
    forall i :: 0 <= i < |s.st| ==> Local(s, i)
  }

  ghost predicate AllCovered(s: State)
    requires Shape(s)
  {
    forall j :: 0 <= j < |s.st| ==> Covered(s, j)
  }

  ghost predicate Inv(s: State) {
    Shape(s) && M.Inv(s.m) && AllLocal(s) && NoNeighboursEat(s.st) && AllCovered(s)
  }

  // ---------- who waits where ----------

  lemma OwnConditionOnly(s: State, c: nat)
    requires Inv(s) && c < |s.st| && !M.IsWaiter(s.m.pc[c], c)
    ensures s.m.cv[c].count == 0
  {
    forall p | 0 <= p < |s.m.pc| ensures !M.WaiterOn(c)(s.m.pc[p]) {
      assert Local(s, p);
    }
    CountIfZero(s.m.pc, M.WaiterOn(c));
  }

  /** A hungry philosopher met by one that is inside is waiting on its own
      condition variable, so the signal reaches it. */
  lemma HungryIsWaiting(s: State, i: nat, j: nat)
    requires Inv(s) && i < |s.st| && j < |s.st| && s.m.pc[i].Inside? && i != j && s.st[j].Hungry?
    ensures s.m.pc[j] == M.CondQueue(j) || s.m.pc[j] == M.WaitPosted(j)
    ensures s.m.cv[j].count > 0 && s.m.cv[j].sem.value == 0
  {
    M.HolderIsAlone(s.m, i);
    assert Local(s, j);
    CountIfAtLeastOne(s.m.pc, j, M.WaiterOn(j));
  }

  /** The queue of a condition variable holds at most its own philosopher. */
  lemma OwnQueueOnly(s: State, c: nat)
    requires Inv(s) && c < |s.st|
    ensures forall p :: p in s.m.cv[c].sem.queue ==> p == c
  {
    forall p | p in s.m.cv[c].sem.queue ensures p == c {
      assert Local(s, p);
    }
  }

  // ---------- every transition keeps the invariant ----------

  /** Steps of the monitor that touch no phase: entering, leaving and blocking. */
  lemma BeginKeepsInv(s: State, a: Step)
    requires Inv(s) && Enabled(s, a) && (a.BeginTake? || a.BeginPut?)
    ensures Inv(Apply(s, a))
  {
    S.StepKeepsInv(s.m, M.Enter(a.i));
    var s' := Apply(s, a);
    SameCover(s, s');
    forall k | 0 <= k < |s'.st| ensures Local(s', k) {
      BeginKeepsLocal(s, a, k);
    }
  }

  lemma BeginKeepsLocal(s: State, a: Step, k: nat)
    requires Enabled(s, a) && (a.BeginTake? || a.BeginPut?) && k < |s.st| && Local(s, k)
    ensures var s' := Apply(s, a); Shape(s') && Local(s', k)
  {
  }

  /** A philosopher that is admitted, or left alone, while another one acts. */
  lemma AdmittedKeepsLocal(s: State, s': State, k: nat)
    requires Shape(s) && Shape(s') && k < |s.st| && |s.st| == |s'.st| && Local(s, k)
    requires s'.st[k] == s.st[k] && s'.loc[k] == s.loc[k]
    requires s'.m.cv[k].sem == s.m.cv[k].sem && S.SameOrAdmitted(s.m.pc[k], s'.m.pc[k])
    ensures Local(s', k)
  {
  }

  /** Routines that move outside of the tests change nobody's cover. */
  lemma SameCover(s: State, s': State)
    requires Shape(s) && Shape(s') && AllCovered(s) && s'.st == s.st
    requires forall k :: 0 <= k < |s.st| && (s.loc[k].TestingLeft? || s.loc[k].TestingRight?) ==>
               s'.loc[k] == s.loc[k]
    ensures AllCovered(s')
  {
    forall k | 0 <= k < |s'.st| ensures Covered(s', k) {
      assert Covered(s, k);
    }
  }

  lemma EndKeepsInv(s: State, a: Step)
    requires Inv(s) && Enabled(s, a) && (a.EndTake? || a.EndPut?)
    ensures Inv(Apply(s, a))
  {
    var i, s' := a.i, Apply(s, a);
    S.StepKeepsInv(s.m, M.Leave(i));
    S.LeaveEffect(s.m, i);
    SameCover(s, s');
    assert Local(s, i);
    forall k | 0 <= k < |s'.st| ensures Local(s', k) {
      if k != i {
        AdmittedKeepsLocal(s, s', k);
      }
    }
  }

  lemma BlockKeepsLocal(s: State, a: Step, k: nat)
    requires Enabled(s, a) && a.Block? && k < |s.st| && Local(s, k) && Local(s, a.i)
    ensures var s' := Apply(s, a); Shape(s') && Local(s', k)
  {
    if k != a.i {
      AdmittedKeepsLocal(s, Apply(s, a), k);
    }
  }

  lemma BlockKeepsInv(s: State, a: Step)
    requires Inv(s) && Enabled(s, a) && a.Block?
    ensures Inv(Apply(s, a))
  {
    S.StepKeepsInv(s.m, a.a);
    assert Local(s, a.i);
    BlockKeepsLocal(s, a, a.i);
    SameCover(s, Apply(s, a));
    forall k | 0 <= k < |s.st| ensures Local(Apply(s, a), k) {
      BlockKeepsLocal(s, a, k);
    }
  }

  lemma TryKeepsInv(s: State, i: nat)
    requires Inv(s) && Enabled(s, Try(i))
    ensures Inv(Apply(s, Try(i)))
  {
    var s', hungry := Apply(s, Try(i)), s.st[i := Hungry];
    OwnConditionOnly(s, i);
    StopEatingKeepsDistance(s.st, i, Hungry);
    TestKeepsDistance(hungry, i);
    assert s'.st == AfterTest(hungry, i) && s'.m == s.m && s'.loc == s.loc[i := Checking];
    assert Local(s, i);
    forall k | 0 <= k < |s'.st| ensures Local(s', k) && Covered(s', k) {
      if k != i {
        AdmittedKeepsLocal(s, s', k);
      }
      TryKeepsCover(s, s', i, k);
    }
  }

  lemma TryKeepsCover(s: State, s': State, i: nat, k: nat)
    requires Shape(s) && Shape(s') && i < |s.st| && k < |s.st| && Covered(s, k) && s.loc[i].Trying? && !s.st[i].Eating?
    requires s'.st == AfterTest(s.st[i := Hungry], i) && s'.loc == s.loc[i := Checking]
    ensures Covered(s', k)
  {
  }

  lemma CheckKeepsInv(s: State, i: nat)
    requires Inv(s) && Enabled(s, Check(i))
    ensures Inv(Apply(s, Check(i)))
  {
    var s' := Apply(s, Check(i));
    SameCover(s, s');
    assert Local(s, i);
    if !s.st[i].Eating? {
      M.HolderIsAlone(s.m, i);
      S.StepKeepsInv(s.m, M.WaitPost(i, i));
      S.WaitPostEffect(s.m, i, i);
    }
    forall k | 0 <= k < |s'.st| ensures Local(s', k) {
      if k != i {
        AdmittedKeepsLocal(s, s', k);
      }
    }
  }

  lemma PutDownKeepsInv(s: State, i: nat)
    requires Inv(s) && Enabled(s, PutDown(i))
    ensures Inv(Apply(s, PutDown(i)))
  {
    var s', n := Apply(s, PutDown(i)), |s.st|;
    StopEatingKeepsDistance(s.st, i, Thinking);
    assert Local(s, i);
    forall k | 0 <= k < n ensures Local(s', k) && Covered(s', k) {
      assert Covered(s, k);
      if k != i {
        AdmittedKeepsLocal(s, s', k);
      }
    }
  }

  /** Philosopher i, inside, tests its neighbour j and signals it. */
  lemma TestKeepsLocal(s: State, i: nat, j: nat, l: Loc)
    requires Inv(s) && i < |s.st| && j < |s.st| && i != j && s.m.pc[i].Inside? && s.st[i].Thinking?
    requires l.TestingRight? || l.PutLeaving?
    ensures var s' := PhiTest(s.(loc := s.loc[i := l]), i, j);
            Shape(s') && M.Inv(s'.m) && AllLocal(s') && s'.st == AfterTest(s.st, j)
  {
    var s' := PhiTest(s.(loc := s.loc[i := l]), i, j);
    assert Local(s, i) && Local(s, j);
    if MayEat(s.st, j) {
      HungryIsWaiting(s, i, j);
      S.StepKeepsInv(s.m, M.SignalPost(i, j));
      S.SignalPostEffect(s.m, i, j);
      OwnQueueOnly(s, j);
      var q := s.m.cv[j].sem.queue;
      assert q == [] || q[0] in q;
      assert j in q <==> s.m.pc[j] == M.CondQueue(j);
    }
    forall k | 0 <= k < |s'.st| ensures Local(s', k) {
      if k != i && k != j {
        AdmittedKeepsLocal(s, s', k);
      }
    }
  }

  /** The one that was tested eats or has an eating neighbour; the others keep
      what covered them. */
  lemma TestKeepsCover(s: State, s': State, i: nat, j: nat, k: nat)
    requires Shape(s) && Shape(s') && |s.st| == |s'.st| && i < |s.st| && j < |s.st| && k < |s.st|
    requires Covered(s, k)
    requires s'.st == AfterTest(s.st, j) && (s'.st[j].Hungry? ==> EatingNeighbour(s'.st, j))
    requires || (s.loc[i].TestingLeft? && s'.loc == s.loc[i := TestingRight] && j == Left(i, |s.st|))
             || (s.loc[i].TestingRight? && s'.loc == s.loc[i := PutLeaving] && j == Right(i, |s.st|))
    ensures Covered(s', k)
  {
  }

  lemma TestLeftKeepsInv(s: State, i: nat)
    requires Inv(s) && Enabled(s, TestLeft(i))
    ensures Inv(Apply(s, TestLeft(i)))
  {
    var s', j := Apply(s, TestLeft(i)), Left(i, |s.st|);
    assert Local(s, i);
    TestKeepsLocal(s, i, j, TestingRight);
    TestKeepsDistance(s.st, j);
    forall k | 0 <= k < |s.st| ensures Covered(s', k) {
      TestKeepsCover(s, s', i, j, k);
    }
  }

  lemma TestRightKeepsInv(s: State, i: nat)
    requires Inv(s) && Enabled(s, TestRight(i))
    ensures Inv(Apply(s, TestRight(i)))
  {
    var s', j := Apply(s, TestRight(i)), Right(i, |s.st|);
    assert Local(s, i);
    TestKeepsLocal(s, i, j, PutLeaving);
    TestKeepsDistance(s.st, j);
    forall k | 0 <= k < |s.st| ensures Covered(s', k) {
      TestKeepsCover(s, s', i, j, k);
    }
  }

  lemma StepKeepsInv(s: State, a: Step)
    requires Inv(s) && Enabled(s, a)
    ensures Inv(Apply(s, a))
  {
    match a
    case BeginTake(_) => BeginKeepsInv(s, a);
    case Try(i) => TryKeepsInv(s, i);
    case Check(i) => CheckKeepsInv(s, i);
    case EndTake(_) => EndKeepsInv(s, a);
    case BeginPut(_) => BeginKeepsInv(s, a);
    case PutDown(i) => PutDownKeepsInv(s, i);
    case TestLeft(i) => TestLeftKeepsInv(s, i);
    case TestRight(i) => TestRightKeepsInv(s, i);
    case EndPut(_) => EndKeepsInv(s, a);
    case Block(_, _) => BlockKeepsInv(s, a);
  }

  lemma NextKeepsInv(s: State, s': State)
    requires Inv(s) && Next(s, s')
    ensures Inv(s')
  {
    var a :| Enabled(s, a) && s' == Apply(s, a);
    StepKeepsInv(s, a);
  }

  // ---------- runs ----------

  ghost predicate StepAt(t: seq<State>, k: nat)
    requires k + 1 < |t|
  {
    Next(t[k], t[k + 1])
  }

  ghost predicate IsRun(t: seq<State>) {
    && t != [] && Init(t[0])
    && forall k :: 0 <= k < |t| - 1 ==> StepAt(t, k)
  }

  lemma {:induction false} RunKeepsInv(t: seq<State>, k: nat)
    requires IsRun(t) && k < |t|
    ensures Inv(t[k])
  {
    if k == 0 {
      S.InitHasInv(t[0].m);
    } else {
      RunKeepsInv(t, k - 1);
      assert StepAt(t, k - 1);
      NextKeepsInv(t[k - 1], t[k]);
    }
  }

  lemma FreeMutexMeansNoTest(s: State)
    requires Inv(s) && s.m.mutex.value > 0
    ensures forall i :: 0 <= i < |s.st| ==> !s.loc[i].TestingLeft? && !s.loc[i].TestingRight?
  {
    var vs := M.CondValues(s.m.cv);
    SumNonNegative(vs);
    CountIfNone(s.m.pc, M.IsHolder);
    CountIfNone(s.m.pc, M.IsSignaller);
    forall i | 0 <= i < |s.st| ensures !s.loc[i].TestingLeft? && !s.loc[i].TestingRight? {
      assert Local(s, i);
    }
  }

  /** In every reachable state of any number of philosophers: no two neighbours
      eat, a philosopher back from take_forks is eating, and whenever the
      monitor is free each hungry philosopher has an eating neighbour. */
  lemma Safety(t: seq<State>, k: nat)
    requires IsRun(t) && k < |t|
    ensures |t[k].st| == |t[k].loc| >= 2
    ensures NoNeighboursEat(t[k].st)
    ensures forall i :: 0 <= i < |t[k].st| && t[k].loc[i].AtTable? ==> t[k].st[i].Eating?
    ensures t[k].m.mutex.value > 0 ==>
              forall j :: 0 <= j < |t[k].st| && t[k].st[j].Hungry? ==> EatingNeighbour(t[k].st, j)
  {
    RunKeepsInv(t, k);
    forall i | 0 <= i < |t[k].st| && t[k].loc[i].AtTable? ensures t[k].st[i].Eating? {
      assert Local(t[k], i);
    }
    if t[k].m.mutex.value > 0 {
      FreeMutexMeansNoTest(t[k]);
      forall j | 0 <= j < |t[k].st| && t[k].st[j].Hungry? ensures EatingNeighbour(t[k].st, j) {
        assert Covered(t[k], j);
      }
    }
  }

  /** The table never deadlocks: if every philosopher is outside the monitor or
      asleep, each sleeper has a neighbour that has finished taking its forks
      and is free to put them down, and the monitor is free for it to enter. */
  lemma SleepersHaveAnEaterToWakeThem(s: State, j: nat)
    requires Inv(s) && R.Quiescent(s.m) && j < |s.st| && M.Asleep(s.m.pc[j])
    ensures s.m.mutex.value > 0
    ensures exists i | i in {Left(j, |s.st|), Right(j, |s.st|)} :: s.loc[i].AtTable? && s.m.pc[i].Outside?
  {
    R.QuiescentMonitorIsFree(s.m);
    FreeMutexMeansNoTest(s);
    assert Local(s, j) && Covered(s, j);
    var i := if s.st[Left(j, |s.st|)].Eating? then Left(j, |s.st|) else Right(j, |s.st|);
    assert Local(s, i);
  }
}
