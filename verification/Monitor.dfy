/** The Hoare monitor of kern/sync/monitor.c as a transition system.

    A process holds the monitor by holding the single unit that travels between
    the entry mutex, the semaphore `next` of suspended signallers and the
    semaphores of the condition variables.  One transition is one stretch of
    code up to and including a semaphore operation, for any number of processes
    and condition variables and under every interleaving. */
module Monitor {
  import opened Semaphores
  import opened Counting
  import opened Wrappers

  /** Where a process is with respect to the monitor. */
  datatype PC =
    | Outside
    | MutexQueue            // asleep in down(mutex)
    | Inside                // running a routine of the monitor
    | Signalled             // in cond_signal, after up(cv.sem)
    | NextQueue             // asleep in down(next)
    | SignalBack            // past down(next), next_count not yet decremented
    | WaitPosted(c: nat)    // in cond_wait, after giving the monitor away
    | CondQueue(c: nat)     // asleep in down(cv[c].sem)
    | WaitBack(c: nat)      // past down(cv[c].sem), count not yet decremented

  datatype Cond = Cond(sem: Sem, count: int)

  datatype State = State(mutex: Sem, next: Sem, nextCount: int, cv: seq<Cond>, pc: seq<PC>)

  ghost predicate IsHolder(x: PC) {
    x.Inside? || x.SignalBack? || x.WaitBack?
  }

  ghost predicate IsSignaller(x: PC) {
    x.Signalled? || x.NextQueue? || x.SignalBack?
  }

  ghost predicate IsWaiter(x: PC, c: nat) {
    x == WaitPosted(c) || x == CondQueue(c) || x == WaitBack(c)
  }

  ghost function WaiterOn(c: nat): PC -> bool {
    (x: PC) => IsWaiter(x, c)
  }

  ghost function CondValues(cv: seq<Cond>): seq<int> {
    seq(|cv|, i requires 0 <= i < |cv| => cv[i].sem.value)
  }

  /** The units of the monitor: free ones and those held by a process. */
  ghost function Units(m: State): int {
    m.mutex.value + m.next.value + Sum(CondValues(m.cv)) + CountIf(m.pc, IsHolder)
  }

  // ---------- transitions ----------

  /** A process woken from a wait queue owns the unit it was waiting for. */
  ghost function Granted(x: PC): PC {
    match x
    case MutexQueue => Inside
    case NextQueue => SignalBack
    case CondQueue(c) => WaitBack(c)
    case _ => x
  }

  ghost function Wake(pc: seq<PC>, s: Sem): seq<PC> {
    if s.queue != [] && s.queue[0] < |pc| then pc[s.queue[0] := Granted(pc[s.queue[0]])] else pc
  }

  ghost function UpMutex(m: State): State {
    m.(mutex := Released(m.mutex), pc := Wake(m.pc, m.mutex))
  }

  ghost function UpNext(m: State): State {
    m.(next := Released(m.next), pc := Wake(m.pc, m.next))
  }

  ghost function UpCond(m: State, c: nat): State
    requires c < |m.cv|
  {
    var s := m.cv[c].sem;
    m.(cv := m.cv[c := m.cv[c].(sem := Released(s))], pc := Wake(m.pc, s))
  }

  ghost function SetPC(m: State, p: Pid, x: PC): State
    requires p < |m.pc|
  {
    m.(pc := m.pc[p := x])
  }

  /** Who gets the monitor when the running process gives it up. */
  ghost function Release(m: State): State {
    if m.nextCount > 0 then UpNext(m) else UpMutex(m)
  }

  datatype Step =
    | Enter(p: Pid)
    | SignalNobody(p: Pid, c: nat)
    | SignalPost(p: Pid, c: nat)
    | SignalBlock(p: Pid)
    | SignalReturn(p: Pid)
    | WaitPost(p: Pid, c: nat)
    | WaitBlock(p: Pid)
    | WaitReturn(p: Pid)
    | Leave(p: Pid)

  ghost predicate Enabled(m: State, a: Step) {
    && a.p < |m.pc|
    && var x := m.pc[a.p];
       match a
       case Enter(_) => x.Outside?
       case SignalNobody(_, c) => x.Inside? && c < |m.cv| && m.cv[c].count <= 0
       case SignalPost(_, c) => x.Inside? && c < |m.cv| && m.cv[c].count > 0
       case SignalBlock(_) => x.Signalled?
       case SignalReturn(_) => x.SignalBack?
       case WaitPost(_, c) => x.Inside? && c < |m.cv|
       case WaitBlock(_) => x.WaitPosted? && x.c < |m.cv|
       case WaitReturn(_) => x.WaitBack? && x.c < |m.cv|
       case Leave(_) => x.Inside?
  }

  ghost function Apply(m: State, a: Step): State
    requires Enabled(m, a)
  {
    var p := a.p;
    match a
    case Enter(_) =>
      SetPC(m.(mutex := Acquired(m.mutex, p)), p, if Passes(m.mutex) then Inside else MutexQueue)
    case SignalNobody(_, _) => m
    case SignalPost(_, c) =>
      UpCond(SetPC(m.(nextCount := m.nextCount + 1), p, Signalled), c)
    case SignalBlock(_) =>
      SetPC(m.(next := Acquired(m.next, p)), p, if Passes(m.next) then SignalBack else NextQueue)
    case SignalReturn(_) => SetPC(m.(nextCount := m.nextCount - 1), p, Inside)
    case WaitPost(_, c) =>
      Release(SetPC(m.(cv := m.cv[c := m.cv[c].(count := m.cv[c].count + 1)]), p, WaitPosted(c)))
    case WaitBlock(_) =>
      var c := m.pc[p].c;
      var s := m.cv[c].sem;
      SetPC(m.(cv := m.cv[c := m.cv[c].(sem := Acquired(s, p))]), p,
            if Passes(s) then WaitBack(c) else CondQueue(c))
    case WaitReturn(_) =>
      var c := m.pc[p].c;
      SetPC(m.(cv := m.cv[c := m.cv[c].(count := m.cv[c].count - 1)]), p, Inside)
    case Leave(_) => Release(SetPC(m, p, Outside))
  }

  ghost predicate Next(m: State, m': State) {
    exists a :: Enabled(m, a) && m' == Apply(m, a)
  }

  /** monitor_init with n processes that have not entered yet. */
  ghost predicate Init(m: State) {
    && m.mutex == Sem(1, []) && m.next == Sem(0, []) && m.nextCount == 0
    && (forall c :: 0 <= c < |m.cv| ==> m.cv[c] == Cond(Sem(0, []), 0))
    && (forall p :: 0 <= p < |m.pc| ==> m.pc[p] == Outside)
  }

  // ---------- the invariant ----------

  ghost predicate QueueHolds(q: seq<Pid>, pc: seq<PC>, x: PC) {
    forall p: Pid :: p in q <==> p < |pc| && pc[p] == x
  }

  ghost predicate QueuesAgree(m: State) {
    && Lawful(m.mutex) && QueueHolds(m.mutex.queue, m.pc, MutexQueue)
    && Lawful(m.next) && QueueHolds(m.next.queue, m.pc, NextQueue)
    && forall c :: 0 <= c < |m.cv| ==>
         Lawful(m.cv[c].sem) && QueueHolds(m.cv[c].sem.queue, m.pc, CondQueue(c))
  }

  ghost predicate CountsAgree(m: State) {
    && m.nextCount == CountIf(m.pc, IsSignaller)
    && forall c :: 0 <= c < |m.cv| ==> m.cv[c].count == CountIf(m.pc, WaiterOn(c))
  }

  ghost predicate CondsInRange(m: State) {
    forall p :: 0 <= p < |m.pc| && (m.pc[p].WaitPosted? || m.pc[p].CondQueue? || m.pc[p].WaitBack?) ==>
      m.pc[p].c < |m.cv|
  }

  /** A free unit is never parked where nobody will pick it up. */
  ghost predicate UnitsClaimed(m: State) {
    && (m.mutex.value > 0 ==> m.nextCount == 0)
    && (m.next.value > 0 ==> m.nextCount > 0)
    && forall c :: 0 <= c < |m.cv| && m.cv[c].sem.value > 0 ==> m.cv[c].count > 0
  }

  ghost predicate Inv(m: State) {
    && QueuesAgree(m)
    && CondsInRange(m)
    && CountsAgree(m)
    && Units(m) == 1
    && UnitsClaimed(m)
  }

  // ---------- bookkeeping lemmas ----------

  /** How one change of program counter moves the three kinds of counts. */
  lemma CountsAfter(pc: seq<PC>, p: Pid, x: PC)
    requires p < |pc|
    ensures CountIf(pc[p := x], IsHolder) ==
            CountIf(pc, IsHolder) - Indicator(IsHolder(pc[p])) + Indicator(IsHolder(x))
    ensures CountIf(pc[p := x], IsSignaller) ==
            CountIf(pc, IsSignaller) - Indicator(IsSignaller(pc[p])) + Indicator(IsSignaller(x))
    ensures forall c: nat ::
              CountIf(pc[p := x], WaiterOn(c)) ==
              CountIf(pc, WaiterOn(c)) - Indicator(IsWaiter(pc[p], c)) + Indicator(IsWaiter(x, c))
  {
    CountIfUpdate(pc, p, x, IsHolder);
    CountIfUpdate(pc, p, x, IsSignaller);
    forall c: nat
      ensures CountIf(pc[p := x], WaiterOn(c)) ==
              CountIf(pc, WaiterOn(c)) - Indicator(IsWaiter(pc[p], c)) + Indicator(IsWaiter(x, c))
    {
      CountIfUpdate(pc, p, x, WaiterOn(c));
    }
  }

  lemma CondValuesAfter(cv: seq<Cond>, c: nat, d: Cond)
    requires c < |cv|
    ensures Sum(CondValues(cv[c := d])) == Sum(CondValues(cv)) - cv[c].sem.value + d.sem.value
  {
    assert CondValues(cv[c := d]) == CondValues(cv)[c := d.sem.value];
    SumUpdate(CondValues(cv), c, d.sem.value);
  }

  /** Removing the front of a queue of distinct processes. */
  lemma QueueFront(q: seq<Pid>, pc: seq<PC>, x: PC, y: PC)
    requires Distinct(q) && q != [] && QueueHolds(q, pc, x) && y != x
    ensures q[0] < |pc| && pc[q[0]] == x
    ensures Distinct(q[1..]) && QueueHolds(q[1..], pc[q[0] := y], x)
  {
    assert q[0] in q;
    var pc' := pc[q[0] := y];
    forall p: Pid ensures p in q[1..] <==> p < |pc'| && pc'[p] == x {
      assert p in q <==> p == q[0] || p in q[1..];
    }
  }

  lemma QueueBack(q: seq<Pid>, pc: seq<PC>, x: PC, p: Pid)
    requires Distinct(q) && QueueHolds(q, pc, x) && p < |pc| && pc[p] != x
    ensures Distinct(q + [p]) && QueueHolds(q + [p], pc[p := x], x)
  {
    forall r: Pid ensures r in q + [p] <==> r < |pc| && pc[p := x][r] == x {
    }
  }

  /** With one unit in all, a holder excludes every free unit and every other
      holder. */
  lemma HolderIsAlone(m: State, p: Pid)
    requires QueuesAgree(m) && Units(m) == 1 && p < |m.pc| && IsHolder(m.pc[p])
    ensures m.mutex.value == 0 && m.next.value == 0
    ensures forall c :: 0 <= c < |m.cv| ==> m.cv[c].sem.value == 0
    ensures forall q :: 0 <= q < |m.pc| && q != p ==> !IsHolder(m.pc[q])
  {
    CountIfAtLeastOne(m.pc, p, IsHolder);
    var vs := CondValues(m.cv);
    SumNonNegative(vs);
    forall c | 0 <= c < |m.cv| ensures m.cv[c].sem.value == 0 {
      assert vs[c] <= Sum(vs);
    }
    forall q | 0 <= q < |m.pc| && q != p ensures !IsHolder(m.pc[q]) {
      if IsHolder(m.pc[q]) {
        CountIfAtLeastTwo(m.pc, if p < q then p else q, if p < q then q else p, IsHolder);
      }
    }
  }

  ghost predicate Core(m: State) {
    QueuesAgree(m) && CondsInRange(m) && CountsAgree(m)
  }

  ghost predicate Asleep(x: PC) {
    x.MutexQueue? || x.NextQueue? || x.CondQueue?
  }

  /** A program counter that is in no wait queue, before or after, leaves the
      queues as they are. */
  lemma AwakeMoveKeepsQueues(m: State, p: Pid, x: PC)
    requires QueuesAgree(m) && p < |m.pc| && !Asleep(m.pc[p]) && !Asleep(x)
    ensures QueuesAgree(SetPC(m, p, x))
  {
  }

  lemma UpMutexAddsUnit(m: State)
    requires Core(m)
    ensures Core(UpMutex(m)) && Units(UpMutex(m)) == Units(m) + 1
  {
    var q := m.mutex.queue;
    if q != [] {
      QueueFront(q, m.pc, MutexQueue, Inside);
      CountsAfter(m.pc, q[0], Inside);
    }
  }

  lemma UpNextAddsUnit(m: State)
    requires Core(m)
    ensures Core(UpNext(m)) && Units(UpNext(m)) == Units(m) + 1
  {
    var q := m.next.queue;
    if q != [] {
      QueueFront(q, m.pc, NextQueue, SignalBack);
      CountsAfter(m.pc, q[0], SignalBack);
    }
  }

  lemma UpCondKeepsQueues(m: State, c: nat)
    requires QueuesAgree(m) && c < |m.cv|
    ensures QueuesAgree(UpCond(m, c))
  {
    var s, m' := m.cv[c].sem, UpCond(m, c);
    if s.queue != [] {
      QueueFront(s.queue, m.pc, CondQueue(c), WaitBack(c));
      forall d | 0 <= d < |m.cv|
        ensures Lawful(m'.cv[d].sem) && QueueHolds(m'.cv[d].sem.queue, m'.pc, CondQueue(d))
      {
      }
    }
  }

  lemma UpCondAddsUnit(m: State, c: nat)
    requires Core(m) && c < |m.cv|
    ensures Core(UpCond(m, c)) && Units(UpCond(m, c)) == Units(m) + 1
  {
    var s := m.cv[c].sem;
    UpCondKeepsQueues(m, c);
    CondValuesAfter(m.cv, c, m.cv[c].(sem := Released(s)));
    if s.queue != [] {
      assert s.queue[0] in s.queue;
      CountsAfter(m.pc, s.queue[0], WaitBack(c));
    }
  }

  /** With no unit at all, nothing is free. */
  lemma NoUnitsMeansNoneFree(m: State)
    requires QueuesAgree(m) && Units(m) == 0
    ensures m.mutex.value == 0 && m.next.value == 0
    ensures forall c :: 0 <= c < |m.cv| ==> m.cv[c].sem.value == 0
  {
    var vs := CondValues(m.cv);
    SumNonNegative(vs);
    forall c | 0 <= c < |m.cv| ensures m.cv[c].sem.value == 0 {
      assert vs[c] <= Sum(vs);
    }
  }

  /** Giving the monitor away from a state without units. */
  lemma ReleaseRestoresInv(m: State)
    requires Core(m) && Units(m) == 0
    ensures Inv(Release(m))
  {
    NoUnitsMeansNoneFree(m);
    if m.nextCount > 0 {
      UpNextAddsUnit(m);
    } else {
      UpMutexAddsUnit(m);
    }
  }
}
