/** Fork, exit and wait as operations on the tree of processes
    (kern/process/proc.c). */
module ProcTree {
  import opened Family
  import opened Wrappers

  /** The processes: their relations, states, which of them sleep in do_wait (wait_state
      is WT_CHILD) and for which child, NULL being any, and the order of creation. */
  datatype World = World(links: Links, state: map<Proc, ProcState>, waiting: set<Proc>, awaited: map<Proc, Proc>,
                         kids: Kids, rank: map<Proc, nat>, next: nat, idle: Proc, init: Proc)

  /** Process p sleeps until its child q is a zombie. */
  ghost predicate Awaits(w: World, p: Proc, q: Proc) {
    p in w.waiting && p in w.awaited && p in w.kids && q in w.kids[p] && (w.awaited[p] == NULL || w.awaited[p] == q)
  }

  /** There is a child that p sleeps for. */
  ghost predicate HasReason(w: World, p: Proc) {
    p in w.awaited && p in w.kids && if w.awaited[p] == NULL then w.kids[p] != [] else w.awaited[p] in w.kids[p]
  }

  /** Zombies have no children and do not sleep; whoever sleeps in do_wait has a child to
      wait for, and it is no zombie. An exiting process still has the children it has not
      lost. */
  ghost predicate Lives(w: World, leaving: Proc) {
    && (forall p :: p in w.kids ==> p in w.state)
    && (forall p :: p in w.kids && p != leaving && p in w.state && w.state[p] == Zombie ==> w.kids[p] == [])
    && (forall p :: p in w.waiting ==> p in w.kids && p in w.state && w.state[p] == Sleeping && HasReason(w, p))
    && (forall p, q :: Awaits(w, p, q) && q in w.state ==> w.state[q] != Zombie)
  }

  ghost predicate Roots(w: World) {
    && w.idle != w.init && w.idle in w.kids && w.init in w.kids && w.init in w.links.parent && w.links.parent[w.init] == w.idle
    && w.idle in w.links.parent && w.links.parent[w.idle] == NULL
    && w.idle in w.state && w.init in w.state && w.state[w.idle] != Zombie && w.state[w.init] != Zombie
  }

  /** Every process is younger than its parent, so nobody is their own ancestor. */
  ghost predicate Ranked(w: World) {
    && (forall q :: q in w.kids ==> q in w.rank && w.rank[q] < w.next && (q in {w.idle, w.init} || w.rank[q] >= 2))
    && w.init in w.rank && w.rank[w.init] == 1
    && (forall q {:trigger Younger(w, q)} :: q in w.kids && q != w.idle ==> Younger(w, q))
  }

  ghost predicate Younger(w: World, q: Proc) {
    q in w.links.parent && q in w.rank && w.links.parent[q] in w.rank && w.rank[w.links.parent[q]] < w.rank[q]
  }

  ghost predicate Good(w: World, leaving: Proc) {
    Tree(w.links, w.kids, w.idle, leaving) && Roots(w) && Ranked(w) && Lives(w, leaving)
  }

  /** The list of processes: all but the idle one. */
  ghost predicate Listed(list: seq<Proc>, kids: Kids, idle: Proc) {
    && (forall q :: q in list <==> q in kids && q != idle)
    && Distinct(list)
  }

  /** No process has a zombie for a parent. */
  lemma NoZombieParent(w: World, q: Proc)
    requires Good(w, NULL) && q in w.kids && q != w.idle
    ensures q in w.links.parent && w.links.parent[q] in w.kids && q in w.kids[w.links.parent[q]]
    ensures w.links.parent[q] in w.state && w.state[w.links.parent[q]] != Zombie
  {
    assert Belongs(w.links, w.kids, q);
  }

  // ---------- waking ----------

  ghost function Woken(w: World, p: Proc): World {
    w.(state := w.state[p := Runnable], waiting := w.waiting - {p})
  }

  /** Where the same processes or fewer sleep for the same children or fewer, and nobody
      has become a zombie, nobody sleeps for a zombie. */
  lemma StillAwaits(w: World, w': World, leaving: Proc)
    requires Lives(w, leaving) && w'.kids == w.kids && w'.awaited == w.awaited && w'.waiting <= w.waiting
    requires forall q :: q in w'.state && w'.state[q] == Zombie ==> q in w.state && w.state[q] == Zombie
    ensures forall p, q :: Awaits(w', p, q) && q in w'.state ==> w'.state[q] != Zombie
    ensures forall p :: p in w'.waiting ==> HasReason(w', p)
  {
    forall p, q | Awaits(w', p, q) && q in w'.state ensures w'.state[q] != Zombie {
      assert Awaits(w, p, q);
    }
    forall p | p in w'.waiting ensures HasReason(w', p) {
      assert HasReason(w, p);
    }
  }

  lemma WakeKeepsGood(w: World, p: Proc, leaving: Proc)
    requires Good(w, leaving) && p in w.kids && w.state[p] != Zombie
    ensures Good(Woken(w, p), leaving)
  {
    var w' := Woken(w, p);
    StillAwaits(w, w', leaving);
    forall q | q in w.kids && q != w.idle ensures Younger(w', q) {
      assert Younger(w, q);
    }
  }

  // ---------- fork ----------

  ghost function Forked(w: World, p: Proc, q: Proc): World
    requires p in w.kids && p in w.links.cptr
  {
    w.(links := Pushed(Allocated(w.links, p, q), p, q), state := w.state[q := Runnable],
       kids := w.kids[q := []][p := [q] + w.kids[p]], rank := w.rank[q := w.next], next := w.next + 1)
  }

  lemma ForkKeepsGood(w: World, p: Proc, q: Proc)
    requires Good(w, NULL) && p in w.kids && w.state[p] != Zombie && p !in w.waiting && q !in w.kids && q != NULL
    ensures p in w.links.cptr && Good(Forked(w, p, q), NULL)
  {
    assert Chain(w.links, p, w.kids[p], NULL);
    ForkKeepsTree(w.links, w.kids, w.idle, p, q);
    ForkRanked(w, p, q);
    ForkLives(w, p, q);
  }

  lemma ForkRanked(w: World, p: Proc, q: Proc)
    requires Tree(w.links, w.kids, w.idle, NULL) && Roots(w) && Ranked(w) && p in w.kids && q !in w.kids && p in w.links.cptr
    ensures Ranked(Forked(w, p, q)) && Roots(Forked(w, p, q))
  {
    var w' := Forked(w, p, q);
    forall c | c in w'.kids && c != w'.idle ensures Younger(w', c) {
      if c != q {
        assert Younger(w, c) && Belongs(w.links, w.kids, c);
      }
    }
  }

  lemma ForkLives(w: World, p: Proc, q: Proc)
    requires Tree(w.links, w.kids, w.idle, NULL) && Lives(w, NULL) && p in w.kids && w.state[p] != Zombie && p !in w.waiting
    requires q !in w.kids && p in w.links.cptr
    ensures Lives(Forked(w, p, q), NULL)
  {
    var w' := Forked(w, p, q);
    forall r, c | Awaits(w', r, c) && c in w'.state ensures w'.state[c] != Zombie {
      assert c != q ==> Awaits(w, r, c);
    }
    forall r | r in w'.waiting ensures HasReason(w', r) {
      assert HasReason(w, r);
    }
  }

  /** Nobody sleeps in do_wait without a living child to wait for, and every zombie that
      is waited for has a parent that is awake. */
  lemma NoLostWakeup(w: World, p: Proc)
    requires Good(w, NULL) && p in w.waiting
    ensures w.state[p] == Sleeping && exists q :: Awaits(w, p, q) && q in w.state && w.state[q] != Zombie
    ensures forall q :: Awaits(w, p, q) ==> q in w.state && w.state[q] != Zombie
  {
    assert HasReason(w, p);
    forall q | Awaits(w, p, q) ensures q in w.state && w.state[q] != Zombie {
      OneParent(w.links, w.kids, w.idle, NULL, p, q);
    }
    var q := if w.awaited[p] == NULL then w.kids[p][0] else w.awaited[p];
    assert Awaits(w, p, q);
  }

  lemma ForkListed(list: seq<Proc>, kids: Kids, idle: Proc, p: Proc, q: Proc)
    requires Listed(list, kids, idle) && p in kids && q !in kids && idle in kids
    ensures Listed([q] + list, kids[q := []][p := [q] + kids[p]], idle)
  {
    var list' := [q] + list;
    assert list'[1..] == list;
  }

  // ---------- exit ----------

  /** The first half of do_exit. */
  ghost function Dead(w: World, cur: Proc): World
    requires cur in w.links.parent
  {
    var w1 := w.(state := w.state[cur := Zombie]);
    if w.links.parent[cur] in w.waiting then Woken(w1, w.links.parent[cur]) else w1
  }

  lemma DieKeepsGood(w: World, cur: Proc)
    requires Good(w, NULL) && cur in w.kids && cur != w.idle && cur != w.init && cur !in w.waiting
    ensures cur in w.links.parent && Good(Dead(w, cur), cur) && w.links.parent[cur] !in Dead(w, cur).waiting
    ensures var w' := Dead(w, cur);
            cur in w'.state && w'.state[cur] == Zombie && w'.kids == w.kids && w'.links == w.links
  {
    assert Belongs(w.links, w.kids, cur) && Younger(w, cur);
    var w' := Dead(w, cur);
    SomebodyLeaves(w.links, w.kids, w.idle, cur);
    forall c | c in w.kids && c != w.idle ensures Younger(w', c) {
      assert Younger(w, c);
    }
    DieLives(w, cur);
  }

  lemma DieLives(w: World, cur: Proc)
    requires Tree(w.links, w.kids, w.idle, NULL) && Lives(w, NULL) && cur in w.kids && cur != w.idle && cur !in w.waiting
    requires Belongs(w.links, w.kids, cur) && w.links.parent[cur] != cur
    ensures Lives(Dead(w, cur), cur)
  {
    forall p | p in w.kids && cur in w.kids[p] ensures p == w.links.parent[cur] {
      OneParent(w.links, w.kids, w.idle, NULL, p, cur);
    }
    var w' := Dead(w, cur);
    forall p, q | Awaits(w', p, q) && q in w'.state ensures w'.state[q] != Zombie {
      assert Awaits(w, p, q);
    }
    forall p | p in w'.waiting ensures HasReason(w', p) {
      assert HasReason(w, p);
    }
  }

  /** One round of the loop of do_exit. */
  ghost function Adopted(w: World, cur: Proc): World
    requires cur in w.kids && |w.kids[cur]| > 0 && w.init in w.kids && w.kids[cur][0] in w.state
    requires cur in w.links.cptr && w.links.cptr[cur] in w.links.optr && w.init in w.links.cptr
  {
    var q := w.kids[cur][0];
    var w1 := w.(links := Moved(w.links, cur, w.init), kids := w.kids[cur := w.kids[cur][1..]][w.init := [q] + w.kids[w.init]]);
    if w.state[q] == Zombie && w.init in w.waiting then Woken(w1, w.init) else w1
  }

  ghost predicate CanAdopt(w: World, cur: Proc) {
    && cur in w.kids && |w.kids[cur]| > 0 && w.init in w.kids && w.kids[cur][0] in w.state
    && cur in w.links.cptr && w.links.cptr[cur] == w.kids[cur][0] && w.kids[cur][0] in w.links.optr && w.init in w.links.cptr
  }

  lemma AdoptKeepsGood(w: World, cur: Proc)
    requires Good(w, cur) && cur in w.kids && cur != w.idle && cur != w.init && |w.kids[cur]| > 0 && cur !in w.waiting
    ensures CanAdopt(w, cur) && Good(Adopted(w, cur), cur)
    ensures Adopted(w, cur).links.parent == w.links.parent[w.kids[cur][0] := w.init] && w.kids[cur][0] != cur
  {
    var q := w.kids[cur][0];
    OneParent(w.links, w.kids, w.idle, cur, cur, q);
    assert Younger(w, q);
    InitIsNoChild(w, cur);
    MoveKeepsTree(w.links, w.kids, w.idle, cur, w.init);
    AdoptRanked(w, cur);
    AdoptLives(w, cur);
  }

  lemma InitIsNoChild(w: World, cur: Proc)
    requires Tree(w.links, w.kids, w.idle, cur) && Roots(w) && cur in w.kids && cur != w.idle
    ensures w.init !in w.kids[cur]
  {
    if w.init in w.kids[cur] {
      OneParent(w.links, w.kids, w.idle, cur, cur, w.init);
    }
  }

  lemma AdoptRanked(w: World, cur: Proc)
    requires Roots(w) && Ranked(w) && CanAdopt(w, cur) && cur != w.init
    requires w.kids[cur][0] in w.kids && w.kids[cur][0] !in {w.idle, w.init}
    ensures Ranked(Adopted(w, cur)) && Roots(Adopted(w, cur))
  {
    var w' := Adopted(w, cur);
    forall c | c in w.kids && c != w.idle ensures Younger(w', c) {
      assert Younger(w, c);
    }
  }

  lemma AdoptLives(w: World, cur: Proc)
    requires Lives(w, cur) && CanAdopt(w, cur) && cur != w.init && w.init in w.state && w.state[w.init] != Zombie
    requires cur !in w.waiting
    ensures Lives(Adopted(w, cur), cur)
  {
    var w' := Adopted(w, cur);
    forall p, q | Awaits(w', p, q) && q in w'.state ensures w'.state[q] != Zombie {
      assert (p == w.init && q == w.kids[cur][0]) || Awaits(w, p, q);
    }
    forall p | p in w'.waiting ensures HasReason(w', p) {
      assert HasReason(w, p);
    }
  }

  ghost function Reversed(k: seq<Proc>): seq<Proc> {
    if k == [] then [] else [k[|k| - 1]] + Reversed(k[..|k| - 1])
  }

  lemma ReverseMore(k: seq<Proc>, n: nat)
    requires n < |k|
    ensures Reversed(k[..n + 1]) == [k[n]] + Reversed(k[..n]) && k[n..][1..] == k[n + 1..] && k[n..][0] == k[n]
  {
    assert k[..n + 1][..n] == k[..n];
  }

  lemma ListedStill(list: seq<Proc>, kids: Kids, kids': Kids, idle: Proc)
    requires Listed(list, kids, idle) && kids'.Keys == kids.Keys
    ensures Listed(list, kids', idle)
  {
    assert forall q :: q in kids' <==> q in kids'.Keys;
    assert forall q :: q in kids <==> q in kids.Keys;
  }

  lemma ExitEnds(w: World, cur: Proc)
    requires Good(w, cur) && cur in w.kids && w.kids[cur] == []
    ensures Good(w, NULL)
  {
    NobodyLeaves(w.links, w.kids, w.idle, cur);
  }

  // ---------- wait ----------

  /** do_wait goes to sleep, for child c or for any. */
  ghost function Asleep(w: World, cur: Proc, c: Proc): World {
    w.(state := w.state[cur := Sleeping], waiting := w.waiting + {cur}, awaited := w.awaited[cur := c])
  }

  lemma SleepKeepsGood(w: World, cur: Proc, c: Proc)
    requires Good(w, NULL) && cur in w.kids && w.state[cur] != Zombie && cur !in w.waiting
    requires if c == NULL then w.kids[cur] != [] else c in w.kids[cur]
    requires forall q :: q in w.kids[cur] && q in w.state && (c == NULL || c == q) ==> w.state[q] != Zombie
    ensures Good(Asleep(w, cur, c), NULL)
  {
    var w' := Asleep(w, cur, c);
    forall p, q | Awaits(w', p, q) && q in w'.state ensures w'.state[q] != Zombie {
      assert p != cur ==> Awaits(w, p, q);
    }
    forall p | p in w'.waiting ensures HasReason(w', p) {
      assert p != cur ==> HasReason(w, p);
    }
    forall q | q in w.kids && q != w.idle ensures Younger(w', q) {
      assert Younger(w, q);
    }
  }

  /** A zombie is reaped by its parent p. */
  ghost function Reaped(w: World, p: Proc, i: nat): World
    requires p in w.kids && i < |w.kids[p]| && Has(w.links, w.kids[p][i])
  {
    w.(links := Unlinked(w.links, w.kids[p][i]), kids := w.kids[p := Without(w.kids[p], i)] - {w.kids[p][i]})
  }

  lemma ReapKeepsGood(w: World, p: Proc, i: nat)
    requires Good(w, NULL) && p in w.kids && p !in w.waiting && i < |w.kids[p]| && w.kids[p][i] in w.state && w.state[w.kids[p][i]] == Zombie
    ensures Has(w.links, w.kids[p][i]) && Good(Reaped(w, p, i), NULL) && w.kids[p][i] != p && w.links.parent[w.kids[p][i]] == p
    ensures w.kids[p][i] in w.kids && w.kids[p][i] != w.idle
  {
    var q := w.kids[p][i];
    assert q in w.kids[p];
    OneParent(w.links, w.kids, w.idle, NULL, p, q);
    RemoveKeepsTree(w.links, w.kids, w.idle, p, i);
    ReapRanked(w, p, i);
    ReapLives(w, p, i);
  }

  lemma ReapRanked(w: World, p: Proc, i: nat)
    requires Roots(w) && Ranked(w) && p in w.kids && i < |w.kids[p]| && Has(w.links, w.kids[p][i])
    requires w.kids[p][i] !in {w.idle, w.init}
    ensures Ranked(Reaped(w, p, i)) && Roots(Reaped(w, p, i))
  {
    var w' := Reaped(w, p, i);
    forall c | c in w'.kids && c != w'.idle ensures Younger(w', c) {
      assert Younger(w, c);
    }
  }

  lemma ReapLives(w: World, p: Proc, i: nat)
    requires Lives(w, NULL) && p in w.kids && p !in w.waiting && i < |w.kids[p]| && Has(w.links, w.kids[p][i]) && w.kids[p][i] != p
    requires w.kids[p][i] in w.state && w.state[w.kids[p][i]] == Zombie
    ensures Lives(Reaped(w, p, i), NULL)
  {
    var w' := Reaped(w, p, i);
    forall c | c in w'.kids[p] ensures c in w.kids[p] {
    }
    forall r, c | Awaits(w', r, c) && c in w'.state ensures w'.state[c] != Zombie {
      assert Awaits(w, r, c);
    }
    forall r | r in w'.waiting ensures HasReason(w', r) {
      assert HasReason(w, r);
    }
  }

  lemma ReapListed(list: seq<Proc>, kids: Kids, idle: Proc, p: Proc, i: nat, at: nat)
    requires Listed(list, kids, idle) && p in kids && i < |kids[p]| && at < |list| && list[at] == kids[p][i]
    ensures Listed(list[..at] + list[at + 1..], kids[p := Without(kids[p], i)] - {kids[p][i]}, idle)
  {
    var list' := list[..at] + list[at + 1..];
    forall q | q in list && q != list[at] ensures q in list' {
      var j :| 0 <= j < |list| && list[j] == q;
      assert list'[if j < at then j else j - 1] == q;
    }
  }
}
