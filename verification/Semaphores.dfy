/** Counting semaphores with direct hand-off: a release gives its unit to the
    first waiter and touches the value only when nobody waits. */
module Semaphores {
  import opened Wrappers

  type Pid = nat

  /** The value of a semaphore and its wait queue, first waiter in front. */
  datatype Sem = Sem(value: int, queue: seq<Pid>)

  /** Units are never held back while somebody waits for one. */
  ghost predicate Lawful(s: Sem) {
    && s.value >= 0
    && (s.value > 0 ==> s.queue == [])
    && Distinct(s.queue)
  }

  ghost function Released(s: Sem): Sem {
    if s.queue == [] then s.(value := s.value + 1) else s.(queue := s.queue[1..])
  }

  /** The process that a release makes runnable. */
  ghost function Woken(s: Sem): Option<Pid> {
    if s.queue == [] then None else Some(s.queue[0])
  }

  ghost function Acquired(s: Sem, p: Pid): Sem {
    if s.value > 0 then s.(value := s.value - 1) else s.(queue := s.queue + [p])
  }

  ghost predicate Passes(s: Sem) {
    s.value > 0
  }

  /** A semaphore in memory (kern/sync/sem.h), its list of wait entries
      represented by the waiting processes in list order. */
  class Semaphore {
    var value: int
    var waiters: seq<Pid>

    ghost function Abs(): (s: Sem)
      reads this
    {
      Sem(value, waiters)
    }

    constructor (v: nat)
      ensures Abs() == Sem(v, []) && Lawful(Abs())
    {
      value, waiters := v, [];
    }

    method Up() returns (woken: Option<Pid>)
      requires Lawful(Abs())
      modifies this
      ensures Lawful(Abs())
      ensures woken.None? <==> old(waiters) == []
      ensures woken.None? ==> value == old(value) + 1 && waiters == []
      ensures woken.Some? ==> value == old(value) == 0 && [woken.value] + waiters == old(waiters)
      ensures woken == old(Woken(Abs())) && Abs() == Released(old(Abs()))
    {
      if waiters == [] {
        value := value + 1;
        woken := None;
      } else {
        woken := Some(waiters[0]);
        waiters := waiters[1..];
      }
    }

    /** Runs up to the point where the caller either returns or sleeps. */
    method Down(current: Pid) returns (passed: bool)
      requires Lawful(Abs()) && current !in waiters
      modifies this
      ensures Lawful(Abs())
      ensures passed <==> old(value) > 0
      ensures passed ==> value == old(value) - 1 && waiters == old(waiters)
      ensures !passed ==> value == old(value) == 0 && waiters == old(waiters) + [current]
      ensures Abs() == Acquired(old(Abs()), current)
    {
      if value > 0 {
        value := value - 1;
        return true;
      }
      waiters := waiters + [current];
      return false;
    }

    method TryDown() returns (ok: bool)
      requires Lawful(Abs())
      modifies this
      ensures Lawful(Abs()) && waiters == old(waiters)
      ensures ok <==> old(value) > 0
      ensures value == if ok then old(value) - 1 else old(value)
    {
      ok := false;
      if value > 0 {
        value, ok := value - 1, true;
      }
    }
  }

  /** What a process does to a semaphore, seen from outside. */
  datatype SemEvent = Upped | Downed(p: Pid)

  ghost function AfterEvent(s: Sem, e: SemEvent): Sem {
    match e
    case Upped => Released(s)
    case Downed(p) => Acquired(s, p)
  }

  ghost function Run(s: Sem, es: seq<SemEvent>): Sem
    decreases |es|
  {
    if es == [] then s else Run(AfterEvent(s, es[0]), es[1..])
  }

  ghost function Releases(es: seq<SemEvent>): nat {
    if es == [] then 0 else (if es[0].Upped? then 1 else 0) + Releases(es[1..])
  }

  ghost function Acquirers(es: seq<SemEvent>): seq<Pid> {
    if es == [] then [] else Arrives(es[0]) + Acquirers(es[1..])
  }

  /** What is left of a line of acquirers after n units have been handed out. */
  ghost predicate Serves(r: Sem, line: seq<Pid>, n: nat) {
    if n <= |line| then r == Sem(0, line[n..]) else r == Sem(n - |line|, [])
  }

  lemma ServesTail(r: Sem, line: seq<Pid>, n: nat)
    requires line != [] && n > 0 && Serves(r, line[1..], n - 1)
    ensures Serves(r, line, n)
  {
    if n <= |line| {
      assert line[1..][n - 1..] == line[n..];
    }
  }

  /** Every run serves its acquirers in arrival order: after r releases exactly
      the first value + r of the line have been let through, the others wait in
      that order, and unclaimed units are the value. */
  lemma {:induction false} RunIsFifo(s: Sem, es: seq<SemEvent>)
    requires s.value >= 0 && (s.value > 0 ==> s.queue == [])
    ensures Serves(Run(s, es), s.queue + Acquirers(es), s.value + Releases(es))
  {
    RunServes(s, es, s.queue + Acquirers(es), s.value + Releases(es));
  }

  lemma {:induction false} RunServes(s: Sem, es: seq<SemEvent>, line: seq<Pid>, n: nat)
    requires s.value >= 0 && (s.value > 0 ==> s.queue == [])
    requires line == s.queue + Acquirers(es) && n == s.value + Releases(es)
    ensures Serves(Run(s, es), line, n)
    decreases |es|
  {
    if es == [] {
      assert line == s.queue && line[0..] == line;
    } else {
      var e, rest := es[0], es[1..];
      var s', more, k := AfterEvent(s, e), Acquirers(rest), Releases(rest);
      EventKeepsOrder(s, e);
      RunServes(s', rest, s'.queue + more, s'.value + k);
      assert line == s.queue + Arrives(e) + more;
      FifoStep(s, e, more, k, Run(s', rest), line, n);
    }
  }

  lemma EventKeepsOrder(s: Sem, e: SemEvent)
    requires s.value >= 0 && (s.value > 0 ==> s.queue == [])
    ensures var s' := AfterEvent(s, e); s'.value >= 0 && (s'.value > 0 ==> s'.queue == [])
  {
  }

  lemma FifoStep(s: Sem, e: SemEvent, more: seq<Pid>, k: nat, r: Sem, line: seq<Pid>, n: nat)
    requires s.value >= 0 && (s.value > 0 ==> s.queue == []) && AfterEvent(s, e).value >= 0
    requires Serves(r, AfterEvent(s, e).queue + more, AfterEvent(s, e).value + k)
    requires line == s.queue + Arrives(e) + more && n == s.value + (if e.Upped? then 1 else 0) + k
    ensures Serves(r, line, n)
  {
    OneEvent(s, e, more);
    if LetsOneThrough(s, e) {
      ServesTail(r, line, n);
    }
  }

  ghost function Arrives(e: SemEvent): seq<Pid> {
    if e.Downed? then [e.p] else []
  }

  ghost predicate LetsOneThrough(s: Sem, e: SemEvent) {
    if e.Upped? then s.queue != [] else s.value > 0
  }

  /** One event serves the head of the line or leaves the line as it is; more arrive later. */
  lemma OneEvent(s: Sem, e: SemEvent, more: seq<Pid>)
    requires s.value >= 0 && (s.value > 0 ==> s.queue == [])
    ensures var s', line := AfterEvent(s, e), s.queue + Arrives(e) + more;
            && s'.value + (if LetsOneThrough(s, e) then 1 else 0) == s.value + (if e.Upped? then 1 else 0)
            && if LetsOneThrough(s, e) then line != [] && s'.queue + more == line[1..] else s'.queue + more == line
  {
  }
}
