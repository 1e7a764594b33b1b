/** Process identifiers (get_pid in kern/process/proc.c): the next free identifier
    after the last one handed out, found without a scan while it is known to be
    below the next one in use. */
module Pid {
  import opened Wrappers

  const MAX_PID := 2 * MAX_PROCESS

  /** The k-th identifier from p on, around the circle 1 .. MAX_PID - 1. */
  function Nth(p: int, k: nat): (q: int)
    requires 1 <= p < MAX_PID && k < MAX_PID - 1
    ensures 1 <= q < MAX_PID
  {
    if p + k < MAX_PID then p + k else p + k - (MAX_PID - 1)
  }

  function Following(p: int): int {
    if p + 1 >= MAX_PID then 1 else p + 1
  }

  ghost predicate InRange(live: seq<int>) {
    forall i :: 0 <= i < |live| ==> 1 <= live[i] < MAX_PID
  }

  /** No process has an identifier strictly between last and safe. */
  ghost predicate Safe(live: seq<int>, last: int, safe: int) {
    && 1 <= last <= MAX_PID && safe <= MAX_PID
    && forall i :: 0 <= i < |live| ==> live[i] <= last || live[i] >= safe
  }

  /** The first k identifiers from p on are in use. */
  ghost predicate AllLive(live: seq<int>, p: int, k: nat)
    requires 1 <= p < MAX_PID && k < MAX_PID - 1
  {
    forall i: nat :: i < k ==> Nth(p, i) in live
  }

  // ---------- there is always a free one ----------

  ghost function Stretch(p: int, k: nat): (s: set<int>)
    requires 1 <= p < MAX_PID && k < MAX_PID
    ensures |s| == k && forall q :: q in s <==> exists i: nat :: i < k && Nth(p, i) == q
  {
    if k == 0 then {}
    else
      var s := Stretch(p, k - 1);
      assert Nth(p, k - 1) !in s;
      s + {Nth(p, k - 1)}
  }

  lemma {:induction false} SetOfSeq(live: seq<int>, s: set<int>)
    requires forall q :: q in s ==> q in live
    ensures |s| <= |live|
  {
    if live == [] {
      forall q ensures q !in s {
        assert q !in live;
      }
      assert s == {};
    } else {
      SetOfSeq(live[1..], s - {live[0]});
      assert |s - {live[0]}| >= |s| - 1;
    }
  }

  lemma FewerThanProcesses(live: seq<int>, p: int, k: nat)
    requires 1 <= p < MAX_PID && k < MAX_PID - 1 && AllLive(live, p, k)
    ensures k <= |live|
  {
    SetOfSeq(live, Stretch(p, k));
  }

  class Pids {
    var lastPid: int
    var nextSafe: int

    constructor ()
      ensures lastPid == MAX_PID && nextSafe == MAX_PID && Safe([], lastPid, nextSafe)
    {
      lastPid, nextSafe := MAX_PID, MAX_PID;
    }

    /** get_pid, where live are the identifiers on the process list: the first free
        identifier after the last one. */
    method GetPid(live: seq<int>) returns (pid: int, ghost k: nat)
      requires Safe(live, lastPid, nextSafe) && InRange(live) && |live| < MAX_PROCESS
      modifies this
      ensures pid == lastPid && pid !in live && Safe([pid] + live, lastPid, nextSafe)
      ensures k < MAX_PID - 1 && pid == Nth(Following(old(lastPid)), k) && AllLive(live, Following(old(lastPid)), k)
    {
      ghost var first := Following(lastPid);
      k := 0;
      lastPid := lastPid + 1;
      var inside := false;
      if lastPid >= MAX_PID {
        lastPid := 1;
        inside := true;
      } else if lastPid >= nextSafe {
        inside := true;
      }
      if inside {
        k := Scan(live, first);
      }
      pid := lastPid;
    }

    /** The scan of the process list, which starts again whenever the bound is lost. */
    method Scan(live: seq<int>, ghost first: int) returns (ghost k: nat)
      requires 1 <= first == lastPid < MAX_PID && InRange(live) && |live| < MAX_PROCESS
      modifies this
      ensures 1 <= lastPid < MAX_PID && k < MAX_PID - 1 && lastPid == Nth(first, k) && AllLive(live, first, k)
      ensures lastPid !in live && nextSafe <= MAX_PID
      ensures forall i :: 0 <= i < |live| ==> live[i] < lastPid || live[i] >= nextSafe
    {
      k := 0;
      nextSafe := MAX_PID;
      var le := 0;
      while le < |live|
        invariant 0 <= le <= |live| && 1 <= lastPid < nextSafe <= MAX_PID
        invariant k <= |live| && lastPid == Nth(first, k) && AllLive(live, first, k)
        invariant forall i :: 0 <= i < le ==> live[i] < lastPid || live[i] >= nextSafe
        decreases MAX_PID - k, |live| - le
      {
        if live[le] == lastPid {
          assert AllLive(live, first, k + 1);
          FewerThanProcesses(live, first, k + 1);
          k := k + 1;
          lastPid := lastPid + 1;
          if lastPid >= nextSafe {
            if lastPid >= MAX_PID {
              lastPid := 1;
            }
            nextSafe := MAX_PID;
            le := 0;
            continue;
          }
        } else if live[le] > lastPid && nextSafe > live[le] {
          nextSafe := live[le];
        }
        le := le + 1;
      }
    }
  }

  // ---------- runs ----------

  /** The list of processes as far as identifiers go. */
  class Table {
    const pids: Pids
    var live: seq<int>

    /** Identifiers are unique and in range; one can be found without a scan below
        nextSafe. */
    ghost predicate Valid()
      reads this, pids
    {
      InRange(live) && Distinct(live) && |live| < MAX_PROCESS && Safe(live, pids.lastPid, pids.nextSafe)
    }

    constructor ()
      ensures Valid() && live == [] && fresh(pids)
    {
      pids := new Pids();
      live := [];
    }

    /** do_fork: refused when there are MAX_PROCESS processes, counting the idle one;
        the new process is linked at the head of the list. */
    method Fork() returns (pid: Option<int>)
      requires Valid()
      modifies this, pids
      ensures Valid()
      ensures pid.None? <==> |old(live)| + 1 >= MAX_PROCESS
      ensures pid.None? ==> live == old(live)
      ensures pid.Some? ==> pid.value !in old(live) && 1 <= pid.value < MAX_PID && live == [pid.value] + old(live)
    {
      if |live| + 1 >= MAX_PROCESS {
        return None;
      }
      var p;
      ghost var k;
      p, k := pids.GetPid(live);
      live := [p] + live;
      return Some(p);
    }

    /** A process is reaped. */
    method Reap(i: nat)
      requires Valid() && i < |live|
      modifies `live
      ensures Valid() && live == old(live)[..i] + old(live)[i + 1..]
    {
      live := live[..i] + live[i + 1..];
    }
  }
}
