/** The scheduler core and the round-robin class (kern/schedule/sched.c,
    kern/schedule/default_sched.c). */
module RoundRobin {
  import opened Wrappers

  type Pid = nat

  const MAX_TIME_SLICE := 5

  datatype Proc = Proc(state: ProcState, slice: nat, resched: bool)

  datatype State = State(procs: map<Pid, Proc>, queue: seq<Pid>, current: Pid, idle: Pid)

  // ---------- what the functions do ----------

  ghost function WithState(s: State, p: Pid, st: ProcState): State
    requires p in s.procs
  {
    s.(procs := s.procs[p := s.procs[p].(state := st)])
  }

  /** RR_enqueue: at the tail, with a full slice if the old one is used up. */
  ghost function Enqueued(s: State, p: Pid): State
    requires p in s.procs
  {
    var pr := s.procs[p];
    var slice := if pr.slice == 0 || pr.slice > MAX_TIME_SLICE then MAX_TIME_SLICE else pr.slice;
    s.(procs := s.procs[p := pr.(slice := slice)], queue := s.queue + [p])
  }

  /** wakeup_proc. */
  ghost function Woken(s: State, p: Pid): State
    requires p in s.procs
  {
    if s.procs[p].state == Runnable then s
    else
      var s1 := WithState(s, p, Runnable);
      if p != s.current && p != s.idle then Enqueued(s1, p) else s1
  }

  /** schedule. */
  ghost function Scheduled(s: State): State
    requires s.current in s.procs
  {
    var s1 := s.(procs := s.procs[s.current := s.procs[s.current].(resched := false)]);
    var s2 := if s.procs[s.current].state == Runnable && s.current != s.idle then Enqueued(s1, s.current) else s1;
    if s2.queue == [] then s2.(current := s.idle) else s2.(current := s2.queue[0], queue := s2.queue[1..])
  }

  /** sched_class_proc_tick on the current process. */
  ghost function Ticked(s: State): State
    requires s.current in s.procs
  {
    var pr := s.procs[s.current];
    if s.current == s.idle then s.(procs := s.procs[s.current := pr.(resched := true)])
    else
      var left := if pr.slice > 0 then pr.slice - 1 else 0;
      s.(procs := s.procs[s.current := pr.(slice := left, resched := pr.resched || left == 0)])
  }

  // ---------- the invariant ----------

  /** Process p waits for the processor. */
  ghost predicate Waiting(s: State, p: Pid) {
    p in s.procs && s.procs[p].state == Runnable && p != s.idle && p != s.current
  }

  /** The queue holds exactly the waiting processes, once each, with usable slices. */
  ghost predicate Inv(s: State) {
    && s.idle in s.procs && s.procs[s.idle].state == Runnable && s.current in s.procs
    && Distinct(s.queue)
    && (forall p: Pid :: p in s.queue <==> Waiting(s, p))
    && (forall p :: p in s.queue && p in s.procs ==> 1 <= s.procs[p].slice <= MAX_TIME_SLICE)
  }

  lemma EnqueueKeeps(s: State, p: Pid)
    requires p in s.procs && p !in s.queue && Distinct(s.queue)
    requires forall q :: q in s.queue && q in s.procs ==> 1 <= s.procs[q].slice <= MAX_TIME_SLICE
    ensures var s' := Enqueued(s, p);
            && Distinct(s'.queue) && (forall q :: q in s'.queue <==> q in s.queue || q == p)
            && (forall q :: q in s'.queue && q in s'.procs ==> 1 <= s'.procs[q].slice <= MAX_TIME_SLICE)
            && s'.procs.Keys == s.procs.Keys && forall q :: q in s.procs ==> s'.procs[q].state == s.procs[q].state
  {
  }

  lemma WakeKeepsInv(s: State, p: Pid)
    requires Inv(s) && p in s.procs
    ensures Inv(Woken(s, p))
  {
    if s.procs[p].state != Runnable && p != s.current {
      assert p !in s.queue;
      EnqueueKeeps(WithState(s, p, Runnable), p);
    }
  }

  lemma ScheduleKeepsInv(s: State)
    requires Inv(s)
    ensures Inv(Scheduled(s))
  {
    var s1 := s.(procs := s.procs[s.current := s.procs[s.current].(resched := false)]);
    if s.procs[s.current].state == Runnable && s.current != s.idle {
      assert s.current !in s.queue;
      EnqueueKeeps(s1, s.current);
      HeadRuns(Enqueued(s1, s.current).queue);
    } else if s.queue != [] {
      HeadRuns(s.queue);
    }
  }

  lemma HeadRuns(q: seq<Pid>)
    requires Distinct(q) && q != []
    ensures q[0] in q && Distinct(q[1..]) && forall p :: p in q[1..] <==> p in q && p != q[0]
  {
    forall p | p in q && p != q[0] ensures p in q[1..] {
      var i :| 0 <= i < |q| && q[i] == p;
      assert q[1..][i - 1] == p;
    }
  }

  // ---------- events ----------

  /** What can happen: a process is created, woken or reaped, the current one goes to
      sleep or exits, time passes, and the scheduler is called. */
  datatype Event = Create(p: Pid) | Wake(p: Pid) | Reap(p: Pid) | Sleep | Exit | Tick | Schedule

  ghost predicate Step(s: State, e: Event, s': State) {
    match e
    case Create(p) => p !in s.procs && s' == s.(procs := s.procs[p := Proc(Uninit, 0, false)])
    case Wake(p) => p in s.procs && s.procs[p].state != Zombie && s' == Woken(s, p)
    case Reap(p) => p in s.procs && s.procs[p].state == Zombie && p != s.current && s' == s.(procs := s.procs - {p})
    case Sleep => s.current in s.procs && s.current != s.idle && s' == WithState(s, s.current, Sleeping)
    case Exit => s.current in s.procs && s.current != s.idle && s' == WithState(s, s.current, Zombie)
    case Tick => s.current in s.procs && s' == Ticked(s)
    case Schedule => s.current in s.procs && s' == Scheduled(s)
  }

  lemma StepKeepsInv(s: State, e: Event, s': State)
    requires Inv(s) && Step(s, e, s')
    ensures Inv(s')
  {
    match e
    case Create(p) => assert p !in s.queue;
    case Wake(p) => WakeKeepsInv(s, p);
    case Reap(p) => assert p !in s.queue;
    case Sleep =>
    case Exit =>
    case Tick =>
    case Schedule => ScheduleKeepsInv(s);
  }

  ghost predicate StepAt(trace: seq<State>, es: seq<Event>, k: nat)
    requires |trace| == |es| + 1 && k < |es|
  {
    Step(trace[k], es[k], trace[k + 1])
  }

  ghost predicate IsRun(trace: seq<State>, es: seq<Event>) {
    |trace| == |es| + 1 && Inv(trace[0]) && forall k: nat :: k < |es| ==> StepAt(trace, es, k)
  }

  lemma {:induction false} RunKeepsInv(trace: seq<State>, es: seq<Event>, k: nat)
    requires IsRun(trace, es) && k <= |es|
    ensures Inv(trace[k])
  {
    if k > 0 {
      RunKeepsInv(trace, es, k - 1);
      assert StepAt(trace, es, k - 1);
      StepKeepsInv(trace[k - 1], es[k - 1], trace[k]);
    }
  }

  // ---------- turns ----------

  ghost function Calls(es: seq<Event>): nat {
    if es == [] then 0 else Calls(es[..|es| - 1]) + if es[|es| - 1].Schedule? then 1 else 0
  }

  /** A queued process moves one place forward when schedule is called, and at no
      other time; from the head it gets the processor. */
  lemma StepMovesQueue(s: State, e: Event, s': State, i: nat)
    requires Inv(s) && Step(s, e, s') && i < |s.queue|
    ensures !e.Schedule? ==> i < |s'.queue| && s'.queue[i] == s.queue[i]
    ensures e.Schedule? && i > 0 ==> i - 1 < |s'.queue| && s'.queue[i - 1] == s.queue[i]
    ensures e.Schedule? && i == 0 ==> s'.current == s.queue[0]
  {
  }

  lemma {:induction false} QueueMoves(trace: seq<State>, es: seq<Event>, i: nat, k: nat)
    requires IsRun(trace, es) && i < |trace[0].queue| && k <= |es| && Calls(es[..k]) <= i
    ensures var j := i - Calls(es[..k]); j < |trace[k].queue| && trace[k].queue[j] == trace[0].queue[i]
  {
    if k > 0 {
      assert es[..k][..k - 1] == es[..k - 1];
      QueueMoves(trace, es, i, k - 1);
      RunKeepsInv(trace, es, k - 1);
      assert StepAt(trace, es, k - 1);
      StepMovesQueue(trace[k - 1], es[k - 1], trace[k], i - Calls(es[..k - 1]));
    }
  }

  /** Whatever else happens, the process at index i of the queue gets the processor
      with exactly the (i + 1)-th call of schedule. */
  lemma RunsAfterItsTurn(trace: seq<State>, es: seq<Event>, i: nat, k: nat)
    requires IsRun(trace, es) && i < |trace[0].queue| && k < |es| && es[k].Schedule? && Calls(es[..k]) == i
    ensures trace[k + 1].current == trace[0].queue[i]
    ensures forall m: nat :: m <= k && Calls(es[..m]) <= i ==> trace[m].current != trace[0].queue[i]
  {
    QueueMoves(trace, es, i, k);
    RunKeepsInv(trace, es, k);
    assert StepAt(trace, es, k);
    StepMovesQueue(trace[k], es[k], trace[k + 1], 0);
    forall m: nat | m <= k && Calls(es[..m]) <= i ensures trace[m].current != trace[0].queue[i] {
      QueueMoves(trace, es, i, m);
      RunKeepsInv(trace, es, m);
      assert trace[m].queue[i - Calls(es[..m])] in trace[m].queue;
    }
  }

  // ---------- the functions themselves ----------

  class Scheduler {
    var procs: map<Pid, Proc>
    var queue: seq<Pid>
    var procNum: int
    var current: Pid
    const idle: Pid

    ghost function Now(): State
      reads this
    {
      State(procs, queue, current, idle)
    }

    ghost predicate Valid()
      reads this
    {
      Inv(Now()) && procNum == |queue|
    }

    /** At boot only the idle process exists, and it is running. */
    constructor (idle: Pid)
      ensures Valid() && Now() == State(map[idle := Proc(Runnable, 0, true)], [], idle, idle)
    {
      this.idle, current := idle, idle;
      procs, queue, procNum := map[idle := Proc(Runnable, 0, true)], [], 0;
    }

    /** RR_enqueue; the process must not be queued already. */
    method Enqueue(p: Pid)
      requires p in procs && p !in queue
      modifies this
      ensures Now() == Enqueued(old(Now()), p) && procNum == old(procNum) + 1
    {
      queue := queue + [p];
      if procs[p].slice == 0 || procs[p].slice > MAX_TIME_SLICE {
        procs := procs[p := procs[p].(slice := MAX_TIME_SLICE)];
      }
      procNum := procNum + 1;
    }

    /** wakeup_proc. */
    method WakeupProc(p: Pid)
      requires Valid() && p in procs && procs[p].state != Zombie
      modifies this
      ensures Valid() && Now() == Woken(old(Now()), p) && Step(old(Now()), Wake(p), Now())
    {
      WakeKeepsInv(Now(), p);
      if procs[p].state != Runnable {
        assert p !in queue;
        procs := procs[p := procs[p].(state := Runnable)];
        if p != current {
          if p != idle {
            Enqueue(p);
          }
        }
      }
    }

    /** schedule. */
    method Schedule()
      requires Valid()
      modifies this
      ensures Valid() && Now() == Scheduled(old(Now())) && Step(old(Now()), Event.Schedule, Now())
    {
      ScheduleKeepsInv(Now());
      assert current !in queue;
      procs := procs[current := procs[current].(resched := false)];
      if procs[current].state == Runnable {
        if current != idle {
          Enqueue(current);
        }
      }
      if queue != [] {
        var next := queue[0];
        queue := queue[1..];
        procNum := procNum - 1;
        current := next;
      } else {
        current := idle;
      }
    }

    /** The tick of run_timer_list for the current process. */
    method ProcTick()
      requires Valid()
      modifies this
      ensures Valid() && Now() == Ticked(old(Now())) && Step(old(Now()), Tick, Now())
    {
      var pr := procs[current];
      if current != idle {
        if pr.slice > 0 {
          pr := pr.(slice := pr.slice - 1);
        }
        if pr.slice == 0 {
          pr := pr.(resched := true);
        }
      } else {
        pr := pr.(resched := true);
      }
      procs := procs[current := pr];
    }
  }

  /** A process that holds the processor for as many ticks as its slice must give it up. */
  lemma {:induction false} SliceRunsOut(s: State, n: nat)
    requires s.current in s.procs && s.current != s.idle && n >= s.procs[s.current].slice && n > 0
    ensures var s' := AfterTicks(s, n); s'.current == s.current && s'.current in s'.procs && s'.procs[s'.current].resched
    decreases n
  {
    if n > 1 {
      if s.procs[s.current].slice <= 1 {
        StaysDue(Ticked(s), n - 1);
      } else {
        SliceRunsOut(Ticked(s), n - 1);
      }
    }
  }

  ghost function AfterTicks(s: State, n: nat): State
    requires s.current in s.procs
    decreases n
  {
    if n == 0 then s else AfterTicks(Ticked(s), n - 1)
  }

  lemma {:induction false} StaysDue(s: State, n: nat)
    requires s.current in s.procs && s.current != s.idle && s.procs[s.current].resched
    ensures var s' := AfterTicks(s, n); s'.current == s.current && s'.current in s'.procs && s'.procs[s'.current].resched
    decreases n
  {
    if n > 0 {
      StaysDue(Ticked(s), n - 1);
    }
  }
}
