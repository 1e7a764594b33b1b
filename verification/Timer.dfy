/** The timer list (add_timer, del_timer, run_timer_list in kern/schedule/sched.c).
    Each timer holds the ticks between its predecessor's expiry and its own; the
    meaning of the list is a set of absolute deadlines. */
module Timer {
  import opened Wrappers

  datatype Entry = Entry(id: nat, expires: nat)

  // ---------- deadlines ----------

  /** A pending timer: when it expires, and its rank among all timers ever added. */
  datatype Rec = Rec(id: nat, deadline: nat, stamp: nat)

  /** Time in ticks, the pending timers in the order they will fire, and the stamp
      of the next timer. */
  datatype Spec = Spec(clock: nat, pending: seq<Rec>, next: nat)

  /** Earlier deadline, or the same one and added earlier. */
  ghost predicate Sooner(a: Rec, b: Rec) {
    a.deadline < b.deadline || (a.deadline == b.deadline && a.stamp < b.stamp)
  }

  ghost predicate Inv(s: Spec) {
    && (forall i :: 0 <= i < |s.pending| ==>
          s.clock < s.pending[i].deadline < s.clock + WORD && s.pending[i].stamp < s.next)
    && (forall i, j :: 0 <= i < j < |s.pending| ==> Sooner(s.pending[i], s.pending[j]) && s.pending[i].id != s.pending[j].id)
  }

  ghost predicate Pending(s: Spec, id: nat) {
    exists i: nat :: i < |s.pending| && s.pending[i].id == id
  }

  /** When the timer before position i expires. */
  ghost function Base(s: Spec, i: nat): nat
    requires i <= |s.pending|
  {
    if i == 0 then s.clock else s.pending[i - 1].deadline
  }

  /** The list of differences stands for the deadlines. */
  ghost predicate Represents(list: seq<Entry>, s: Spec) {
    && |list| == |s.pending|
    && forall i: nat :: i < |list| ==> At(list, s, i)
  }

  ghost predicate At(list: seq<Entry>, s: Spec, i: nat)
    requires i < |list| == |s.pending|
  {
    list[i].id == s.pending[i].id && list[i].expires == s.pending[i].deadline - Base(s, i)
  }

  // ---------- what the operations mean ----------

  /** A new timer goes behind those that expire no later. */
  ghost predicate Added(s: Spec, s': Spec, id: nat, ticks: nat, i: nat) {
    var r := Rec(id, s.clock + ticks, s.next);
    && i <= |s.pending|
    && (forall j :: 0 <= j < i ==> s.pending[j].deadline <= r.deadline)
    && (forall j :: i <= j < |s.pending| ==> r.deadline < s.pending[j].deadline)
    && s' == Spec(s.clock, s.pending[..i] + [r] + s.pending[i..], s.next + 1)
  }

  ghost function Deleted(s: Spec, i: nat): Spec
    requires i < |s.pending|
  {
    s.(pending := s.pending[..i] + s.pending[i + 1..])
  }

  /** One tick: the first n timers fire, which are those that are due. */
  ghost predicate Ticked(s: Spec, s': Spec, n: nat) {
    && n <= |s.pending|
    && (forall j :: 0 <= j < |s.pending| ==> (s.pending[j].deadline == s.clock + 1 <==> j < n))
    && s' == Spec(s.clock + 1, s.pending[n..], s.next)
  }

  ghost function Ids(rs: seq<Rec>): seq<nat> {
    seq(|rs|, (i: nat) requires i < |rs| => rs[i].id)
  }

  lemma AddKeepsInv(s: Spec, s': Spec, id: nat, ticks: nat, i: nat)
    requires Inv(s) && 0 < ticks < WORD && !Pending(s, id) && Added(s, s', id, ticks, i)
    ensures Inv(s')
  {
    var p := s'.pending;
    forall j, k | 0 <= j < k < |p| ensures Sooner(p[j], p[k]) && p[j].id != p[k].id {
      InsertedAt(s.pending, i, Rec(id, s.clock + ticks, s.next), j);
      InsertedAt(s.pending, i, Rec(id, s.clock + ticks, s.next), k);
    }
    forall j | 0 <= j < |p| ensures s.clock < p[j].deadline < s.clock + WORD && p[j].stamp < s'.next {
      InsertedAt(s.pending, i, Rec(id, s.clock + ticks, s.next), j);
    }
  }

  lemma InsertedAt(rs: seq<Rec>, i: nat, r: Rec, j: nat)
    requires i <= |rs| && j <= |rs|
    ensures (rs[..i] + [r] + rs[i..])[j] == if j < i then rs[j] else if j == i then r else rs[j - 1]
  {
  }

  lemma DeleteKeepsInv(s: Spec, i: nat)
    requires Inv(s) && i < |s.pending|
    ensures Inv(Deleted(s, i))
  {
  }

  lemma TickKeepsInv(s: Spec, s': Spec, n: nat)
    requires Inv(s) && Ticked(s, s', n)
    ensures Inv(s')
  {
  }

  class Timers {
    var list: seq<Entry>
    ghost var spec: Spec

    /** The deadlines are in order, and the first difference is not zero. */
    ghost predicate Valid()
      reads this
    {
      Inv(spec) && Represents(list, spec)
    }

    constructor ()
      ensures Valid() && spec == Spec(0, [], 0)
    {
      list, spec := [], Spec(0, [], 0);
    }

    lemma HeadIsNotZero()
      requires Valid() && |list| > 0
      ensures list[0].expires > 0
    {
      assert At(list, spec, 0);
    }

    lemma NoOverflow(i: nat)
      requires Valid() && i < |list|
      ensures 0 <= list[i].expires < WORD && (i + 1 < |list| ==> list[i].expires + list[i + 1].expires < WORD)
    {
      assert At(list, spec, i);
      assert i + 1 < |list| ==> At(list, spec, i + 1);
    }

    /** add_timer. */
    method AddTimer(id: nat, ticks: nat)
      requires Valid() && 0 < ticks < WORD && !Pending(spec, id)
      modifies this
      ensures Valid() && exists i: nat :: Added(old(spec), spec, id, ticks, i)
    {
      ghost var s := spec;
      var expires := ticks;
      var le := 0;
      while le < |list|
        invariant 0 <= le <= |list| && list == old(list) && spec == s
        invariant forall j :: 0 <= j < le ==> s.pending[j].deadline <= s.clock + ticks
        invariant expires == s.clock + ticks - Base(s, le)
      {
        assert At(list, s, le);
        if expires < list[le].expires {
          break;
        }
        expires := expires - list[le].expires;
        le := le + 1;
      }
      ghost var s' := Spec(s.clock, s.pending[..le] + [Rec(id, s.clock + ticks, s.next)] + s.pending[le..], s.next + 1);
      LaterOnes(s, list, le, ticks);
      assert Added(s, s', id, ticks, le);
      AddKeepsInv(s, s', id, ticks, le);
      InsertRepresents(list, s, s', id, ticks, le);
      if le < |list| {
        list := list[le := list[le].(expires := list[le].expires - expires)];
      }
      list := list[..le] + [Entry(id, expires)] + list[le..];
      spec := s';
    }

    /** del_timer: nothing happens to a timer that is not in the list. */
    method DelTimer(id: nat)
      requires Valid()
      modifies this
      ensures Valid() && DeletedId(old(spec), spec, id)
    {
      var at := PlaceOfId(list, id);
      if at == |list| {
        NotPending(list, spec, id);
        return;
      }
      assert At(list, spec, at);
      DeleteKeepsInv(spec, at);
      DeleteRepresents(list, spec, at);
      if list[at].expires != 0 {
        if at + 1 < |list| {
          list := list[at + 1 := list[at + 1].(expires := list[at + 1].expires + list[at].expires)];
        }
      }
      list := list[..at] + list[at + 1..];
      spec := Deleted(spec, at);
    }

    /** run_timer_list: the identifiers of the timers that fire, in order. */
    method RunTimerList() returns (fired: seq<nat>)
      requires Valid()
      modifies this
      ensures Valid() && exists n: nat :: Ticked(old(spec), spec, n) && fired == Ids(old(spec).pending[..n])
    {
      ghost var s, n := spec, 0;
      fired := [];
      if |list| > 0 {
        assert At(list, s, 0);
        DecrementRepresents(list, s);
        list := list[0 := list[0].(expires := list[0].expires - 1)];
        while |list| > 0 && list[0].expires == 0
          invariant 0 <= n <= |s.pending| && Represents(list, After(s, n)) && fired == Ids(s.pending[..n])
          invariant forall j :: 0 <= j < n ==> s.pending[j].deadline == s.clock + 1
          decreases |list|
        {
          assert At(list, After(s, n), 0);
          FireRepresents(list, s, n);
          fired := fired + [list[0].id];
          list := list[1..];
          n := n + 1;
        }
      }
      DueOnes(list, s, n);
      TickKeepsInv(s, After(s, n), n);
      spec := After(s, n);
    }
  }

  /** Where a timer is in the list, or the length of the list. */
  function PlaceOfId(list: seq<Entry>, id: nat): (i: nat)
    ensures i <= |list| && (i < |list| ==> list[i].id == id) && forall j :: 0 <= j < i ==> list[j].id != id
  {
    if list == [] || list[0].id == id then 0 else 1 + PlaceOfId(list[1..], id)
  }

  ghost predicate DeletedId(s: Spec, s': Spec, id: nat) {
    if Pending(s, id) then exists i: nat :: i < |s.pending| && s.pending[i].id == id && s' == Deleted(s, i) else s' == s
  }

  lemma NotPending(list: seq<Entry>, s: Spec, id: nat)
    requires Represents(list, s) && forall j :: 0 <= j < |list| ==> list[j].id != id
    ensures !Pending(s, id)
  {
    forall i: nat | i < |s.pending| ensures s.pending[i].id != id {
      assert At(list, s, i);
    }
  }

  lemma DeleteRepresents(list: seq<Entry>, s: Spec, at: nat)
    requires Inv(s) && Represents(list, s) && at < |list|
    ensures var moved := if list[at].expires != 0 && at + 1 < |list|
                         then list[at + 1 := list[at + 1].(expires := list[at + 1].expires + list[at].expires)] else list;
            Represents(moved[..at] + moved[at + 1..], Deleted(s, at))
  {
    var moved := if list[at].expires != 0 && at + 1 < |list|
                 then list[at + 1 := list[at + 1].(expires := list[at + 1].expires + list[at].expires)] else list;
    var list', s' := moved[..at] + moved[at + 1..], Deleted(s, at);
    assert At(list, s, at);
    forall i: nat | i < |list'| ensures At(list', s', i) {
      assert At(list, s, if i < at then i else i + 1);
    }
  }

  /** A tick later, without the first n timers. */
  ghost function After(s: Spec, n: nat): Spec
    requires n <= |s.pending|
  {
    Spec(s.clock + 1, s.pending[n..], s.next)
  }

  lemma DecrementRepresents(list: seq<Entry>, s: Spec)
    requires Inv(s) && Represents(list, s) && |list| > 0
    ensures list[0].expires > 0 && Represents(list[0 := list[0].(expires := list[0].expires - 1)], After(s, 0))
  {
    assert At(list, s, 0);
    var list', s' := list[0 := list[0].(expires := list[0].expires - 1)], After(s, 0);
    forall i: nat | i < |list'| ensures At(list', s', i) {
      assert At(list, s, i);
    }
  }

  lemma FireRepresents(list: seq<Entry>, s: Spec, n: nat)
    requires n <= |s.pending| && Represents(list, After(s, n)) && |list| > 0 && list[0].expires == 0
    ensures Represents(list[1..], After(s, n + 1)) && s.pending[n].deadline == s.clock + 1 && s.pending[n].id == list[0].id
    ensures Ids(s.pending[..n + 1]) == Ids(s.pending[..n]) + [list[0].id]
  {
    assert At(list, After(s, n), 0);
    var rest, s' := list[1..], After(s, n + 1);
    forall i: nat | i < |rest| ensures At(rest, s', i) {
      assert At(list, After(s, n), i + 1);
    }
  }

  lemma DueOnes(list: seq<Entry>, s: Spec, n: nat)
    requires Inv(s) && n <= |s.pending| && (forall j :: 0 <= j < n ==> s.pending[j].deadline == s.clock + 1)
    requires |list| == 0 ==> n == |s.pending|
    requires |list| > 0 ==> Represents(list, After(s, n)) && list[0].expires != 0
    ensures Ticked(s, After(s, n), n)
  {
    if |list| > 0 {
      assert At(list, After(s, n), 0);
      assert forall j :: n < j < |s.pending| ==> Sooner(s.pending[n], s.pending[j]);
    }
  }

  // ---------- runs ----------

  datatype Event = Add(id: nat, ticks: nat) | Delete(id: nat) | Tick

  /** One operation on the list and the timers it fires. */
  ghost predicate Step(s: Spec, e: Event, s': Spec, fired: seq<nat>) {
    match e
    case Add(id, ticks) => 0 < ticks < WORD && !Pending(s, id) && fired == [] && exists i: nat :: Added(s, s', id, ticks, i)
    case Delete(id) => fired == [] && DeletedId(s, s', id)
    case Tick => exists n: nat :: Ticked(s, s', n) && fired == Ids(s.pending[..n])
  }

  lemma StepKeepsInv(s: Spec, e: Event, s': Spec, fired: seq<nat>)
    requires Inv(s) && Step(s, e, s', fired)
    ensures Inv(s')
  {
    match e
    case Add(id, ticks) =>
      var i: nat :| Added(s, s', id, ticks, i);
      AddKeepsInv(s, s', id, ticks, i);
    case Delete(id) =>
      if Pending(s, id) {
        var i: nat :| i < |s.pending| && s.pending[i].id == id && s' == Deleted(s, i);
        DeleteKeepsInv(s, i);
      }
    case Tick =>
      var n: nat :| Ticked(s, s', n) && fired == Ids(s.pending[..n]);
      TickKeepsInv(s, s', n);
  }

  ghost predicate IsRun(trace: seq<Spec>, es: seq<Event>, fired: seq<seq<nat>>) {
    && |trace| == |es| + 1 && |fired| == |es| && Inv(trace[0])
    && forall k: nat :: k < |es| ==> StepAt(trace, es, fired, k)
  }

  ghost predicate StepAt(trace: seq<Spec>, es: seq<Event>, fired: seq<seq<nat>>, k: nat)
    requires |trace| == |es| + 1 && |fired| == |es| && k < |es|
  {
    Step(trace[k], es[k], trace[k + 1], fired[k])
  }

  ghost predicate HasRec(s: Spec, r: Rec) {
    exists i: nat :: i < |s.pending| && s.pending[i] == r
  }

  lemma AddKeepsTimer(s: Spec, s': Spec, id: nat, ticks: nat, at: nat, r: Rec)
    requires Added(s, s', id, ticks, at) && HasRec(s, r)
    ensures HasRec(s', r)
  {
    var i: nat :| i < |s.pending| && s.pending[i] == r;
    assert s'.pending[if i < at then i else i + 1] == r;
  }

  lemma DeleteKeepsTimer(s: Spec, at: nat, r: Rec)
    requires at < |s.pending| && s.pending[at].id != r.id && HasRec(s, r)
    ensures HasRec(Deleted(s, at), r)
  {
    var i: nat :| i < |s.pending| && s.pending[i] == r;
    assert Deleted(s, at).pending[if i < at then i else i - 1] == r;
  }

  lemma TickKeepsTimer(s: Spec, s': Spec, n: nat, r: Rec)
    requires Inv(s) && Ticked(s, s', n) && HasRec(s, r)
    ensures s.clock + 1 == r.deadline ==> r.id in Ids(s.pending[..n]) && !Pending(s', r.id)
    ensures s.clock + 1 != r.deadline ==> r.id !in Ids(s.pending[..n]) && HasRec(s', r)
  {
    var i: nat :| i < |s.pending| && s.pending[i] == r;
    var fired := Ids(s.pending[..n]);
    if i < n {
      assert fired[i] == r.id;
    } else {
      assert s'.pending[i - n] == r;
    }
  }

  /** In one step a pending timer keeps its deadline unless it is deleted or due,
      and it fires exactly when it is due. */
  lemma StepKeepsTimer(s: Spec, e: Event, s': Spec, fired: seq<nat>, r: Rec)
    requires Inv(s) && Step(s, e, s', fired) && HasRec(s, r) && e != Delete(r.id)
    ensures e.Tick? && s'.clock == r.deadline ==> r.id in fired && !Pending(s', r.id)
    ensures !(e.Tick? && s'.clock == r.deadline) ==> r.id !in fired && HasRec(s', r)
  {
    match e
    case Add(id, ticks) =>
      var at: nat :| Added(s, s', id, ticks, at);
      AddKeepsTimer(s, s', id, ticks, at, r);
    case Delete(id) =>
      if Pending(s, id) {
        var at: nat :| at < |s.pending| && s.pending[at].id == id && s' == Deleted(s, at);
        DeleteKeepsTimer(s, at, r);
      }
    case Tick =>
      var n: nat :| Ticked(s, s', n) && fired == Ids(s.pending[..n]);
      TickKeepsTimer(s, s', n, r);
  }

  /** Over a whole run, a timer that is not deleted stays pending before its
      deadline and does not fire. */
  lemma {:induction false} WaitsForDeadline(trace: seq<Spec>, es: seq<Event>, fired: seq<seq<nat>>, r: Rec, k: nat)
    requires IsRun(trace, es, fired) && HasRec(trace[0], r) && k <= |es| && trace[k].clock < r.deadline
    requires forall j :: 0 <= j < k ==> es[j] != Delete(r.id)
    ensures HasRec(trace[k], r) && forall j :: 0 <= j < k ==> r.id !in fired[j]
  {
    if k > 0 {
      RunKeepsInv(trace, es, fired, k - 1);
      var s, e, s', f := trace[k - 1], es[k - 1], trace[k], fired[k - 1];
      assert StepAt(trace, es, fired, k - 1);
      ClockAdvances(s, e, s', f);
      WaitsForDeadline(trace, es, fired, r, k - 1);
      StepKeepsTimer(s, e, s', f, r);
    }
  }

  lemma ClockAdvances(s: Spec, e: Event, s': Spec, fired: seq<nat>)
    requires Step(s, e, s', fired)
    ensures s'.clock == s.clock + if e.Tick? then 1 else 0
  {
  }

  lemma {:induction false} RunKeepsInv(trace: seq<Spec>, es: seq<Event>, fired: seq<seq<nat>>, k: nat)
    requires IsRun(trace, es, fired) && k <= |es|
    ensures Inv(trace[k])
  {
    if k > 0 {
      assert StepAt(trace, es, fired, k - 1);
      RunKeepsInv(trace, es, fired, k - 1);
      StepKeepsInv(trace[k - 1], es[k - 1], trace[k], fired[k - 1]);
    }
  }

  ghost function Ticks(es: seq<Event>): nat {
    if es == [] then 0 else Ticks(es[..|es| - 1]) + if es[|es| - 1].Tick? then 1 else 0
  }

  lemma {:induction false} ClockCountsTicks(trace: seq<Spec>, es: seq<Event>, fired: seq<seq<nat>>, k: nat)
    requires IsRun(trace, es, fired) && k <= |es|
    ensures trace[k].clock == trace[0].clock + Ticks(es[..k])
  {
    if k > 0 {
      ClockCountsTicks(trace, es, fired, k - 1);
      assert StepAt(trace, es, fired, k - 1);
      ClockAdvances(trace[k - 1], es[k - 1], trace[k], fired[k - 1]);
      assert es[..k][..k - 1] == es[..k - 1];
    }
  }

  /** A timer added with t ticks fires on exactly the t-th tick after that, unless it
      is deleted: not before, and then it is gone. */
  lemma FiresOnTime(trace: seq<Spec>, es: seq<Event>, fired: seq<seq<nat>>, id: nat, t: nat, k: nat)
    requires IsRun(trace, es, fired) && 0 < k < |es| && es[0] == Add(id, t)
    requires forall j :: 0 < j <= k ==> es[j] != Delete(id)
    requires es[k].Tick? && Ticks(es[..k]) + 1 == t
    ensures id in fired[k] && !Pending(trace[k + 1], id) && forall j :: 0 <= j < k ==> id !in fired[j]
  {
    ClockCountsTicks(trace, es, fired, k);
    assert StepAt(trace, es, fired, 0);
    var i: nat :| Added(trace[0], trace[1], id, t, i);
    var r := Rec(id, trace[0].clock + t, trace[0].next);
    assert trace[1].pending[i] == r;
    SuffixIsRun(trace, es, fired, 1);
    var trace', es', fired' := trace[1..], es[1..], fired[1..];
    WaitsForDeadline(trace', es', fired', r, k - 1);
    RunKeepsInv(trace, es, fired, k);
    assert StepAt(trace, es, fired, k);
    StepKeepsTimer(trace[k], es[k], trace[k + 1], fired[k], r);
    forall j | 0 <= j < k ensures id !in fired[j] {
      assert j > 0 ==> fired[j] == fired'[j - 1];
    }
  }

  lemma SuffixIsRun(trace: seq<Spec>, es: seq<Event>, fired: seq<seq<nat>>, a: nat)
    requires IsRun(trace, es, fired) && a <= |es|
    ensures IsRun(trace[a..], es[a..], fired[a..])
  {
    RunKeepsInv(trace, es, fired, a);
    var trace', es', fired' := trace[a..], es[a..], fired[a..];
    forall j: nat | j < |es'| ensures StepAt(trace', es', fired', j) {
      assert StepAt(trace, es, fired, a + j);
    }
  }

  lemma {:induction false} StampsGrow(trace: seq<Spec>, es: seq<Event>, fired: seq<seq<nat>>, a: nat, b: nat)
    requires IsRun(trace, es, fired) && a <= b <= |es|
    ensures trace[a].next <= trace[b].next
  {
    if a < b {
      StampsGrow(trace, es, fired, a, b - 1);
      assert StepAt(trace, es, fired, b - 1);
    }
  }

  /** The timer added by event a, as it stands in the list. */
  ghost function AddedBy(trace: seq<Spec>, es: seq<Event>, a: nat): Rec
    requires a < |es| < |trace| && es[a].Add?
  {
    Rec(es[a].id, trace[a].clock + es[a].ticks, trace[a].next)
  }

  /** It is pending until its deadline if it is not deleted. */
  lemma PendingSinceAdded(trace: seq<Spec>, es: seq<Event>, fired: seq<seq<nat>>, a: nat, k: nat)
    requires IsRun(trace, es, fired) && a < k <= |es| && es[a].Add? && trace[k].clock < trace[a].clock + es[a].ticks
    requires forall j :: a < j < k ==> es[j] != Delete(es[a].id)
    ensures HasRec(trace[k], AddedBy(trace, es, a))
  {
    var r := AddedBy(trace, es, a);
    assert StepAt(trace, es, fired, a);
    var i: nat :| Added(trace[a], trace[a + 1], es[a].id, es[a].ticks, i);
    assert trace[a + 1].pending[i] == r;
    SuffixIsRun(trace, es, fired, a + 1);
    WaitsForDeadline(trace[a + 1..], es[a + 1..], fired[a + 1..], r, k - a - 1);
  }

  /** In a list that ticks, a timer with the smaller stamp comes first. */
  lemma FireInOrder(s: Spec, s': Spec, fired: seq<nat>, r: Rec, q: Rec) returns (i: nat, j: nat)
    requires Inv(s) && Step(s, Tick, s', fired) && HasRec(s, r) && HasRec(s, q)
    requires r.deadline == q.deadline == s.clock + 1 && r.stamp < q.stamp
    ensures i < j < |fired| && fired[i] == r.id && fired[j] == q.id
  {
    var n: nat :| Ticked(s, s', n) && fired == Ids(s.pending[..n]);
    i :| i < |s.pending| && s.pending[i] == r;
    j :| j < |s.pending| && s.pending[j] == q;
    if j < i {
      assert false;
    }
  }

  /** Two timers that are due at the same tick, neither of them deleted, fire on it in the
      order they were added, whatever happens in between. */
  lemma FirstAddedFiresFirst(trace: seq<Spec>, es: seq<Event>, fired: seq<seq<nat>>, a: nat, b: nat, k: nat) returns (i: nat, j: nat)
    requires IsRun(trace, es, fired) && a < b < k < |es| && es[a].Add? && es[b].Add? && es[k].Tick?
    requires Ticks(es[..a]) + es[a].ticks == Ticks(es[..b]) + es[b].ticks == Ticks(es[..k]) + 1
    requires forall j :: a < j < k ==> es[j] != Delete(es[a].id)
    requires forall j :: b < j < k ==> es[j] != Delete(es[b].id)
    ensures i < j < |fired[k]| && fired[k][i] == es[a].id && fired[k][j] == es[b].id
  {
    ClockCountsTicks(trace, es, fired, a);
    ClockCountsTicks(trace, es, fired, b);
    ClockCountsTicks(trace, es, fired, k);
    PendingSinceAdded(trace, es, fired, a, k);
    PendingSinceAdded(trace, es, fired, b, k);
    StampsGrow(trace, es, fired, a + 1, b);
    assert StepAt(trace, es, fired, a) && StepAt(trace, es, fired, k);
    RunKeepsInv(trace, es, fired, k);
    i, j := FireInOrder(trace[k], trace[k + 1], fired[k], AddedBy(trace, es, a), AddedBy(trace, es, b));
  }

  /** Where the search of add_timer stops, all later timers expire later. */
  lemma LaterOnes(s: Spec, list: seq<Entry>, le: nat, ticks: nat)
    requires Inv(s) && Represents(list, s) && le <= |list|
    requires le < |list| ==> s.clock + ticks - Base(s, le) < list[le].expires
    ensures forall j :: le <= j < |list| ==> s.clock + ticks < s.pending[j].deadline
  {
    if le < |list| {
      assert At(list, s, le);
      assert forall j :: le < j < |list| ==> Sooner(s.pending[le], s.pending[j]);
    }
  }

  lemma InsertRepresents(list: seq<Entry>, s: Spec, s': Spec, id: nat, ticks: nat, le: nat)
    requires Represents(list, s) && Added(s, s', id, ticks, le) && s.clock + ticks >= Base(s, le)
    ensures var expires := s.clock + ticks - Base(s, le);
            le < |list| ==> list[le].expires >= expires
    ensures var expires := s.clock + ticks - Base(s, le);
            var moved := if le < |list| then list[le := list[le].(expires := list[le].expires - expires)] else list;
            Represents(moved[..le] + [Entry(id, expires)] + moved[le..], s')
  {
    var expires := s.clock + ticks - Base(s, le);
    assert le < |list| ==> At(list, s, le);
    var moved := if le < |list| then list[le := list[le].(expires := list[le].expires - expires)] else list;
    var list' := moved[..le] + [Entry(id, expires)] + moved[le..];
    forall i: nat | i < |list'| ensures At(list', s', i) {
      if i < le {
        assert At(list, s, i);
      } else if i > le {
        assert At(list, s, i - 1);
      }
    }
  }
}
