/** Dining philosophers with one mutex and one semaphore per philosopher
    (kern/sync/check_sync.c, phi_*_sema), for any number of philosophers and
    every interleaving of the stretches between semaphore operations. */
module PhilosophersSemaphore {
  import opened Semaphores
  import opened Counting
  import opened Table

  datatype PC =
    | Away
    | TakeQueued    // asleep in down(mutex) of take_forks
    | TakeIn        // critical section: about to become hungry and test itself
    | TakeOut       // about to up(mutex)
    | TakeDown      // about to down(s[i])
    | ForkQueued    // asleep in down(s[i])
    | AtTable       // take_forks has returned
    | PutQueued     // asleep in down(mutex) of put_forks
    | PutIn         // critical section: about to stop eating
    | PutLeft | PutRight
    | PutOut

  datatype State = State(mutex: Sem, s: seq<Sem>, st: seq<Phase>, pc: seq<PC>)

  ghost predicate InSection(x: PC) {
    x.TakeIn? || x.TakeOut? || x.PutIn? || x.PutLeft? || x.PutRight? || x.PutOut?
  }

  ghost predicate AtMutex(x: PC) {
    x.TakeQueued? || x.PutQueued?
  }

  ghost predicate Shape(z: State) {
    |z.s| == |z.st| == |z.pc| >= 2
  }

  ghost function Granted(x: PC): PC {
    match x
    case TakeQueued => TakeIn
    case PutQueued => PutIn
    case ForkQueued => AtTable
    case _ => x
  }

  ghost function Wake(pc: seq<PC>, s: Sem): seq<PC> {
    if s.queue != [] && s.queue[0] < |pc| then pc[s.queue[0] := Granted(pc[s.queue[0]])] else pc
  }

  /** phi_test_sema(j). */
  ghost function PhiTest(z: State, j: nat): State
    requires Shape(z) && j < |z.st|
  {
    if MayEat(z.st, j) then
      z.(st := z.st[j := Eating], s := z.s[j := Released(z.s[j])], pc := Wake(z.pc, z.s[j]))
    else z
  }

  ghost function DownMutex(z: State, i: nat, passed: PC, queued: PC): State
    requires Shape(z) && i < |z.st|
  {
    z.(mutex := Acquired(z.mutex, i), pc := z.pc[i := if Passes(z.mutex) then passed else queued])
  }

  ghost function UpMutex(z: State, i: nat, after: PC): State
    requires Shape(z) && i < |z.st|
  {
    z.(mutex := Released(z.mutex), pc := Wake(z.pc[i := after], z.mutex))
  }

  /** The next stretch of philosopher i. */
  ghost predicate CanStep(z: State, i: nat) {
    Shape(z) && i < |z.st| && !AtMutex(z.pc[i]) && !z.pc[i].ForkQueued?
  }

  ghost function Step(z: State, i: nat): State
    requires CanStep(z, i)
  {
    var n := |z.st|;
    match z.pc[i]
    case Away => DownMutex(z, i, TakeIn, TakeQueued)
    case TakeIn => PhiTest(z.(st := z.st[i := Hungry], pc := z.pc[i := TakeOut]), i)
    case TakeOut => UpMutex(z, i, TakeDown)
    case TakeDown =>
      z.(s := z.s[i := Acquired(z.s[i], i)],
         pc := z.pc[i := if Passes(z.s[i]) then AtTable else ForkQueued])
    case AtTable => DownMutex(z, i, PutIn, PutQueued)
    case PutIn => z.(st := z.st[i := Thinking], pc := z.pc[i := PutLeft])
    case PutLeft => PhiTest(z.(pc := z.pc[i := PutRight]), Left(i, n))
    case PutRight => PhiTest(z.(pc := z.pc[i := PutOut]), Right(i, n))
    case PutOut => UpMutex(z, i, Away)
  }

  ghost predicate Next(z: State, z': State) {
    exists i: nat :: CanStep(z, i) && z' == Step(z, i)
  }

  ghost predicate Init(z: State) {
    && Shape(z) && z.mutex == Sem(1, [])
    && forall i :: 0 <= i < |z.st| ==> z.s[i] == Sem(0, []) && z.st[i].Thinking? && z.pc[i].Away?
  }

  // ---------- the invariant ----------

  /** A unit in the philosopher's semaphore, or nothing: the fork semaphore is
      positive exactly when its owner was let eat before asking. */
  ghost predicate Local(z: State, i: nat)
    requires Shape(z) && i < |z.st|
  {
    var ph, f := z.st[i], z.s[i];
    match z.pc[i]
    case Away => ph.Thinking? && f == Sem(0, [])
    case TakeQueued => ph.Thinking? && f == Sem(0, [])
    case TakeIn => ph.Thinking? && f == Sem(0, [])
    case TakeOut => (ph.Hungry? && f == Sem(0, [])) || (ph.Eating? && f == Sem(1, []))
    case TakeDown => (ph.Hungry? && f == Sem(0, [])) || (ph.Eating? && f == Sem(1, []))
    case ForkQueued => ph.Hungry? && f == Sem(0, [i])
    case AtTable => ph.Eating? && f == Sem(0, [])
    case PutQueued => ph.Eating? && f == Sem(0, [])
    case PutIn => ph.Eating? && f == Sem(0, [])
    case PutLeft => ph.Thinking? && f == Sem(0, [])
    case PutRight => ph.Thinking? && f == Sem(0, [])
    case PutOut => ph.Thinking? && f == Sem(0, [])
  }

  ghost predicate Covered(z: State, j: nat)
    requires Shape(z) && j < |z.st|
  {
    z.st[j].Hungry? ==>
      || EatingNeighbour(z.st, j)
      || z.pc[Right(j, |z.st|)].PutLeft?
      || z.pc[Left(j, |z.st|)].PutLeft?
      || z.pc[Left(j, |z.st|)].PutRight?
  }

  ghost predicate MutexAgrees(z: State) {
    && Lawful(z.mutex)
    && (forall p: Pid :: p in z.mutex.queue <==> p < |z.pc| && AtMutex(z.pc[p]))
    && z.mutex.value + CountIf(z.pc, InSection) == 1
  }

  ghost predicate Inv(z: State) {
    && Shape(z) && MutexAgrees(z) && NoNeighboursEat(z.st)
    && (forall i :: 0 <= i < |z.st| ==> Local(z, i))
    && (forall j :: 0 <= j < |z.st| ==> Covered(z, j))
  }

  // ---------- the mutex ----------

  lemma DownMutexAgrees(z: State, i: nat, passed: PC, queued: PC)
    requires Shape(z) && i < |z.st| && MutexAgrees(z)
    requires !InSection(z.pc[i]) && !AtMutex(z.pc[i]) && InSection(passed) && AtMutex(queued)
    ensures MutexAgrees(DownMutex(z, i, passed, queued))
  {
    CountIfUpdate(z.pc, i, if Passes(z.mutex) then passed else queued, InSection);
  }

  lemma UpMutexAgrees(z: State, i: nat, after: PC)
    requires Shape(z) && i < |z.st| && MutexAgrees(z)
    requires InSection(z.pc[i]) && !InSection(after) && !AtMutex(after)
    ensures MutexAgrees(UpMutex(z, i, after))
  {
    var pc1, q, z' := z.pc[i := after], z.mutex.queue, UpMutex(z, i, after);
    assert z'.mutex.value + CountIf(z'.pc, InSection) == 1 by {
      CountIfUpdate(z.pc, i, after, InSection);
      if q != [] {
        assert q[0] in q;
        CountIfUpdate(pc1, q[0], Granted(pc1[q[0]]), InSection);
      }
    }
    forall p: Pid ensures p in z'.mutex.queue <==> p < |z'.pc| && AtMutex(z'.pc[p]) {
      UpMutexQueue(z, i, after, p);
    }
  }

  lemma UpMutexQueue(z: State, i: nat, after: PC, p: Pid)
    requires Shape(z) && i < |z.st| && MutexAgrees(z)
    requires InSection(z.pc[i]) && !AtMutex(after)
    ensures var z' := UpMutex(z, i, after); p in z'.mutex.queue <==> p < |z'.pc| && AtMutex(z'.pc[p])
  {
    var q := z.mutex.queue;
    if q != [] {
      assert q[0] in q && (p in q <==> p == q[0] || p in q[1..]);
    }
  }

  /** Moves inside the critical section, and of philosophers that are neither in
      it nor waiting for it. */
  lemma MoveAgrees(z: State, i: nat, x: PC)
    requires Shape(z) && i < |z.st| && MutexAgrees(z)
    requires InSection(x) == InSection(z.pc[i]) && !AtMutex(x) && !AtMutex(z.pc[i])
    ensures MutexAgrees(z.(pc := z.pc[i := x]))
  {
    CountIfUpdate(z.pc, i, x, InSection);
  }

  // ---------- every stretch keeps the invariant ----------

  /** A philosopher whose phase and semaphore are left alone, and that is at most
      let into the critical section. */
  lemma AdmittedKeepsLocal(z: State, z': State, k: nat)
    requires Shape(z) && Shape(z') && k < |z.st| && |z.st| == |z'.st| && Local(z, k)
    requires z'.st[k] == z.st[k] && z'.s[k] == z.s[k]
    requires z'.pc[k] == z.pc[k] || (AtMutex(z.pc[k]) && z'.pc[k] == Granted(z.pc[k]))
    ensures Local(z', k)
  {
  }

  lemma SameCover(z: State, z': State, k: nat)
    requires Shape(z) && Shape(z') && k < |z.st| && Covered(z, k) && z'.st == z.st
    requires forall i :: 0 <= i < |z.st| && (z.pc[i].PutLeft? || z.pc[i].PutRight?) ==> z'.pc[i] == z.pc[i]
    ensures Covered(z', k)
  {
  }

  lemma EnterKeepsInv(z: State, i: nat)
    requires Inv(z) && CanStep(z, i) && (z.pc[i].Away? || z.pc[i].AtTable?)
    ensures Inv(Step(z, i))
  {
    var z' := Step(z, i);
    if z.pc[i].Away? {
      DownMutexAgrees(z, i, TakeIn, TakeQueued);
    } else {
      DownMutexAgrees(z, i, PutIn, PutQueued);
    }
    forall k | 0 <= k < |z.st| ensures Local(z', k) && Covered(z', k) {
      assert Local(z, k) && Covered(z, k);
      SameCover(z, z', k);
    }
  }

  lemma LeaveKeepsInv(z: State, i: nat)
    requires Inv(z) && CanStep(z, i) && (z.pc[i].TakeOut? || z.pc[i].PutOut?)
    ensures Inv(Step(z, i))
  {
    var z', q := Step(z, i), z.mutex.queue;
    assert q == [] || q[0] in q;
    UpMutexAgrees(z, i, if z.pc[i].TakeOut? then TakeDown else Away);
    forall k | 0 <= k < |z.st| ensures Local(z', k) && Covered(z', k) {
      assert Local(z, k) && Covered(z, k) && Local(z, i);
      SameCover(z, z', k);
      if k != i {
        AdmittedKeepsLocal(z, z', k);
      }
    }
  }

  lemma TakeDownKeepsInv(z: State, i: nat)
    requires Inv(z) && CanStep(z, i) && z.pc[i].TakeDown?
    ensures Inv(Step(z, i))
  {
    var z' := Step(z, i);
    MoveAgrees(z, i, z'.pc[i]);
    assert Local(z, i);
    forall k | 0 <= k < |z.st| ensures Local(z', k) && Covered(z', k) {
      assert Local(z, k) && Covered(z, k);
      SameCover(z, z', k);
    }
  }

  lemma TakeInKeepsInv(z: State, i: nat)
    requires Inv(z) && CanStep(z, i) && z.pc[i].TakeIn?
    ensures Inv(Step(z, i))
  {
    var z', hungry := Step(z, i), z.st[i := Hungry];
    assert Local(z, i);
    MoveAgrees(z, i, TakeOut);
    StopEatingKeepsDistance(z.st, i, Hungry);
    TestKeepsDistance(hungry, i);
    assert z'.st == AfterTest(hungry, i) && z'.pc == z.pc[i := TakeOut];
    forall k | 0 <= k < |z.st| ensures Local(z', k) && Covered(z', k) {
      if k != i {
        AdmittedKeepsLocal(z, z', k);
      }
      TakeInKeepsCover(z, z', i, k);
    }
  }

  lemma TakeInKeepsCover(z: State, z': State, i: nat, k: nat)
    requires Shape(z) && Shape(z') && i < |z.st| && k < |z.st| && Covered(z, k) && z.pc[i].TakeIn? && !z.st[i].Eating?
    requires z'.st == AfterTest(z.st[i := Hungry], i) && z'.pc == z.pc[i := TakeOut]
    ensures Covered(z', k)
  {
  }

  lemma PutInKeepsInv(z: State, i: nat)
    requires Inv(z) && CanStep(z, i) && z.pc[i].PutIn?
    ensures Inv(Step(z, i))
  {
    var z' := Step(z, i);
    MoveAgrees(z, i, PutLeft);
    StopEatingKeepsDistance(z.st, i, Thinking);
    forall k | 0 <= k < |z.st| ensures Local(z', k) && Covered(z', k) {
      assert Local(z, k) && Covered(z, k);
    }
  }

  ghost predicate Tests(z: State, i: nat, j: nat, x: PC) {
    && Inv(z) && i < |z.st| && j < |z.st| && i != j
    && ((z.pc[i].PutLeft? && x.PutRight?) || (z.pc[i].PutRight? && x.PutOut?))
  }

  lemma TestKeepsMutex(z: State, i: nat, j: nat, x: PC)
    requires Tests(z, i, j, x)
    ensures MutexAgrees(PhiTest(z.(pc := z.pc[i := x]), j))
  {
    var z1 := z.(pc := z.pc[i := x]);
    MoveAgrees(z, i, x);
    assert Local(z, i) && Local(z, j);
    if MayEat(z.st, j) && z.pc[j].ForkQueued? {
      MoveAgrees(z1, j, AtTable);
    }
  }

  /** Philosopher i, in the section, tests its neighbour j. */
  lemma TestKeepsLocal(z: State, i: nat, j: nat, x: PC)
    requires Tests(z, i, j, x)
    ensures var z' := PhiTest(z.(pc := z.pc[i := x]), j);
            && Shape(z') && |z'.st| == |z.st| && z'.st == AfterTest(z.st, j)
            && z'.pc[i] == x && (forall k :: 0 <= k < |z.st| && k != i && k != j ==> z'.pc[k] == z.pc[k])
            && (z'.pc[j] == z.pc[j] || (z.pc[j].ForkQueued? && z'.pc[j].AtTable?))
            && forall k :: 0 <= k < |z'.st| ==> Local(z', k)
  {
    var z' := PhiTest(z.(pc := z.pc[i := x]), j);
    assert Local(z, i) && Local(z, j);
    OthersAreOutside(z, i, j);
    forall k | 0 <= k < |z'.st| ensures Local(z', k) {
      if k != i && k != j {
        AdmittedKeepsLocal(z, z', k);
      }
    }
  }

  /** Two philosophers are never in the critical section together. */
  lemma OthersAreOutside(z: State, i: nat, j: nat)
    requires MutexAgrees(z) && i < |z.pc| && j < |z.pc| && i != j && InSection(z.pc[i])
    ensures !InSection(z.pc[j]) && z.mutex.value == 0
  {
    CountIfAtLeastOne(z.pc, i, InSection);
    if InSection(z.pc[j]) {
      CountIfAtLeastTwo(z.pc, if i < j then i else j, if i < j then j else i, InSection);
    }
  }

  lemma TestKeepsCover(z: State, z': State, i: nat, j: nat, k: nat)
    requires Shape(z) && Shape(z') && |z.st| == |z'.st| && i < |z.st| && j < |z.st| && k < |z.st|
    requires Covered(z, k)
    requires z'.st == AfterTest(z.st, j) && (z'.st[j].Hungry? ==> EatingNeighbour(z'.st, j))
    requires forall l :: 0 <= l < |z.st| && l != i && (z.pc[l].PutLeft? || z.pc[l].PutRight?) ==> z'.pc[l] == z.pc[l]
    requires || (z.pc[i].PutLeft? && z'.pc[i].PutRight? && j == Left(i, |z.st|))
             || (z.pc[i].PutRight? && j == Right(i, |z.st|))
    ensures Covered(z', k)
  {
  }

  lemma TestKeepsInv(z: State, i: nat)
    requires Inv(z) && CanStep(z, i) && (z.pc[i].PutLeft? || z.pc[i].PutRight?)
    ensures Inv(Step(z, i))
  {
    var z', n := Step(z, i), |z.st|;
    var j := if z.pc[i].PutLeft? then Left(i, n) else Right(i, n);
    var x := if z.pc[i].PutLeft? then PutRight else PutOut;
    TestKeepsMutex(z, i, j, x);
    TestKeepsLocal(z, i, j, x);
    TestKeepsDistance(z.st, j);
    forall k | 0 <= k < n ensures Covered(z', k) {
      TestKeepsCover(z, z', i, j, k);
    }
  }

  lemma NextKeepsInv(z: State, z': State)
    requires Inv(z) && Next(z, z')
    ensures Inv(z')
  {
    var i: nat :| CanStep(z, i) && z' == Step(z, i);
    match z.pc[i]
    case Away => EnterKeepsInv(z, i);
    case TakeIn => TakeInKeepsInv(z, i);
    case TakeOut => LeaveKeepsInv(z, i);
    case TakeDown => TakeDownKeepsInv(z, i);
    case AtTable => EnterKeepsInv(z, i);
    case PutIn => PutInKeepsInv(z, i);
    case PutLeft => TestKeepsInv(z, i);
    case PutRight => TestKeepsInv(z, i);
    case PutOut => LeaveKeepsInv(z, i);
  }

  // ---------- runs ----------

  ghost predicate StepAt(t: seq<State>, k: nat)
    requires k + 1 < |t|
  {
    Next(t[k], t[k + 1])
  }

  ghost predicate IsRun(t: seq<State>) {
    && t != [] && Init(t[0])
    && forall k :: 0 <= k < |t| - 1 ==> StepAt(t, k)
  }

  lemma {:induction false} RunKeepsInv(t: seq<State>, k: nat)
    requires IsRun(t) && k < |t|
    ensures Inv(t[k])
  {
    if k == 0 {
      CountIfZero(t[0].pc, InSection);
    } else {
      RunKeepsInv(t, k - 1);
      assert StepAt(t, k - 1);
      NextKeepsInv(t[k - 1], t[k]);
    }
  }

  lemma FreeMutexMeansEatingNeighbour(z: State, j: nat)
    requires Inv(z) && z.mutex.value > 0 && j < |z.st| && z.st[j].Hungry?
    ensures EatingNeighbour(z.st, j)
  {
    CountIfNone(z.pc, InSection);
    assert Covered(z, j);
  }

  /** In every reachable state of any number of philosophers: no two neighbours
      eat, a philosopher back from take_forks is eating, and whenever the mutex
      is free each hungry philosopher has an eating neighbour. */
  lemma Safety(t: seq<State>, k: nat)
    requires IsRun(t) && k < |t|
    ensures |t[k].st| == |t[k].pc| >= 2
    ensures NoNeighboursEat(t[k].st)
    ensures forall i :: 0 <= i < |t[k].st| && t[k].pc[i].AtTable? ==> t[k].st[i].Eating?
    ensures t[k].mutex.value > 0 ==>
              forall j :: 0 <= j < |t[k].st| && t[k].st[j].Hungry? ==> EatingNeighbour(t[k].st, j)
  {
    RunKeepsInv(t, k);
    forall i | 0 <= i < |t[k].st| && t[k].pc[i].AtTable? ensures t[k].st[i].Eating? {
      assert Local(t[k], i);
    }
    if t[k].mutex.value > 0 {
      forall j | 0 <= j < |t[k].st| && t[k].st[j].Hungry? ensures EatingNeighbour(t[k].st, j) {
        FreeMutexMeansEatingNeighbour(t[k], j);
      }
    }
  }

  ghost predicate Quiescent(z: State) {
    forall i :: 0 <= i < |z.pc| ==>
      z.pc[i].Away? || z.pc[i].AtTable? || AtMutex(z.pc[i]) || z.pc[i].ForkQueued?
  }

  /** No deadlock: when everybody thinks, eats or sleeps, the mutex is free, the
      sleepers wait for forks only, and each has a neighbour that is eating and
      free to put its forks down. */
  lemma SleepersHaveAnEaterToWakeThem(z: State, j: nat)
    requires Inv(z) && Quiescent(z) && j < |z.st| && (AtMutex(z.pc[j]) || z.pc[j].ForkQueued?)
    ensures z.mutex == Sem(1, []) && z.pc[j].ForkQueued?
    ensures exists i | i in {Left(j, |z.st|), Right(j, |z.st|)} :: z.pc[i].AtTable?
  {
    CountIfZero(z.pc, InSection);
    assert j in z.mutex.queue <==> AtMutex(z.pc[j]);
    assert Local(z, j);
    FreeMutexMeansEatingNeighbour(z, j);
    var i := if z.st[Left(j, |z.st|)].Eating? then Left(j, |z.st|) else Right(j, |z.st|);
    assert Local(z, i);
    assert i in z.mutex.queue <==> AtMutex(z.pc[i]);
  }
}
