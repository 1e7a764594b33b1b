/** The process table and the calls that change it: do_fork, do_exit and do_wait
    (kern/process/proc.c). */
module Processes {
  import opened Family
  import opened ProcTree
  import opened Wrappers

  /** How one pass of do_wait ends. */
  datatype Outcome = Reaped(child: Proc) | Slept | BadProc

  class Table {
    const idle: Proc
    const init: Proc
    var links: Links
    var state: map<Proc, ProcState>
    var waiting: set<Proc>                // processes whose wait_state is WT_CHILD
    var list: seq<Proc>
    var nrProcess: int
    ghost var awaited: map<Proc, Proc>    // the child each of them waits for, NULL for any
    ghost var kids: Kids
    ghost var rank: map<Proc, nat>
    ghost var next: nat

    ghost function Now(): World
      reads this
    {
      World(links, state, waiting, awaited, kids, rank, next, idle, init)
    }

    ghost predicate Valid()
      reads this
    {
      Good(Now(), NULL) && Listed(list, kids, idle) && nrProcess == |list| + 1
    }

    /** After proc_init: the idle process and its child init. */
    constructor (idle: Proc, init: Proc)
      requires idle != NULL && init != NULL && idle != init
      ensures Valid() && kids == map[idle := [init], init := []] && nrProcess == 2
    {
      this.idle, this.init := idle, init;
      links := Links(map[idle := NULL, init := idle], map[idle := init, init := NULL],
                     map[idle := NULL, init := NULL], map[idle := NULL, init := NULL]);
      state := map[idle := Runnable, init := Runnable];
      waiting, list, nrProcess := {}, [init], 2;
      awaited, kids, rank, next := map[], map[idle := [init], init := []], map[idle := 0, init := 1], 2;
      new;
      FirstIsGood(idle, init);
      assert Now() == First(idle, init);
    }

    /** wakeup_proc, as far as waiting for children goes. */
    method Wakeup(p: Proc)
      modifies `state, `waiting
      ensures Now() == Woken(old(Now()), p)
    {
      state := state[p := Runnable];
      waiting := waiting - {p};
    }

    /** Anybody may wake a process at any time, as do_kill and timers do: it then looks
        again for a zombie, and the table stays sound. */
    method WakeupProc(p: Proc)
      requires Valid() && p in kids && state[p] != Zombie
      modifies `state, `waiting
      ensures Valid() && Now() == Woken(old(Now()), p) && p !in waiting && state[p] == Runnable
    {
      WakeKeepsGood(Now(), p, NULL);
      Wakeup(p);
    }

    /** The pointers that set_links writes. */
    method SetLinks(p: Proc, q: Proc)
      requires p in links.cptr
      modifies `links
      ensures links == Pushed(old(links), p, q)
    {
      var older := links.cptr[p];
      links := links.(parent := links.parent[q := p], yptr := links.yptr[q := NULL], optr := links.optr[q := older]);
      if older != NULL {
        links := links.(yptr := links.yptr[older := q]);
      }
      links := links.(cptr := links.cptr[p := q]);
    }

    // ---------- fork ----------

    /** do_fork, once the new process q has its memory: refused if there are too many
        processes, else q is the youngest child of the current one. */
    method Fork(cur: Proc, q: Proc) returns (ok: bool)
      requires Valid() && cur in kids && state[cur] != Zombie && cur !in waiting && q !in kids && q != NULL
      modifies this
      ensures Valid() && (ok <==> old(nrProcess) < MAX_PROCESS)
      ensures !ok ==> Now() == old(Now()) && list == old(list)
      ensures ok ==> cur in old(links).cptr && Now() == Forked(old(Now()), cur, q) && list == [q] + old(list)
    {
      if nrProcess >= MAX_PROCESS {
        return false;
      }
      ForkKeepsGood(Now(), cur, q);
      ForkListed(list, kids, idle, cur, q);
      AddProcess(cur, q);
      return true;
    }

    method AddProcess(cur: Proc, q: Proc)
      requires cur in kids && cur in links.cptr
      modifies this
      ensures Now() == Forked(old(Now()), cur, q) && list == [q] + old(list) && nrProcess == old(nrProcess) + 1
    {
      links := Links(links.parent[q := cur], links.cptr[q := NULL], links.yptr[q := NULL], links.optr[q := NULL]);
      list := [q] + list;
      SetLinks(cur, q);
      nrProcess := nrProcess + 1;
      state := state[q := Runnable];
      kids, rank, next := kids[q := []][cur := [q] + kids[cur]], rank[q := next], next + 1;
    }

    // ---------- exit ----------

    /** do_exit: the process becomes a zombie, wakes its parent if that sleeps in
        do_wait, and leaves its children to init, which is woken for their zombies. */
    method Exit(cur: Proc)
      requires Valid() && cur in kids && cur != idle && cur != init && cur !in waiting
      modifies `links, `state, `waiting, `kids
      ensures Valid() && cur in state && state[cur] == Zombie
      ensures kids == old(kids)[cur := []][init := Reversed(old(kids)[cur]) + old(kids)[init]]
      ensures cur in links.parent && cur in old(links).parent && links.parent[cur] == old(links).parent[cur]
      ensures links.parent[cur] !in waiting
    {
      ListedStill(list, kids, Lost(kids, cur, init, |kids[cur]|), idle);
      Leave(cur);
    }

    method Leave(cur: Proc)
      requires Good(Now(), NULL) && cur in kids && cur != idle && cur != init && cur !in waiting
      modifies `links, `state, `waiting, `kids
      ensures Good(Now(), NULL) && cur in state && state[cur] == Zombie
      ensures kids == Lost(old(kids), cur, init, |old(kids)[cur]|)
      ensures kids == old(kids)[cur := []][init := Reversed(old(kids)[cur]) + old(kids)[init]]
      ensures cur in links.parent && cur in old(links).parent && links.parent[cur] == old(links).parent[cur]
      ensures links.parent[cur] !in waiting
    {
      DieKeepsGood(Now(), cur);
      Die(cur);
      ghost var w := Now();
      Orphan(cur);
      OrphanEnd(w, Now(), cur);
      assert state[cur] == Zombie;
    }

    method Die(cur: Proc)
      requires cur in links.parent
      modifies `state, `waiting
      ensures Now() == Dead(old(Now()), cur)
    {
      state := state[cur := Zombie];
      var parent := links.parent[cur];
      if parent in waiting {
        Wakeup(parent);
      }
    }

    /** The loop of do_exit. */
    method Orphan(cur: Proc)
      requires Good(Now(), cur) && cur in kids && cur != idle && cur != init && cur in links.parent && cur !in waiting
      modifies `links, `state, `waiting, `kids
      ensures Good(Now(), cur) && Orphaned(old(Now()), Now(), cur, |old(kids)[cur]|)
    {
      ghost var w, n := Now(), 0;
      OrphanStart(w, cur);
      OrphansLeft(w, w, cur, 0);
      while links.cptr[cur] != NULL
        invariant 0 <= n <= |w.kids[cur]| && Good(Now(), cur) && Orphaned(w, Now(), cur, n) && cur in links.cptr
        invariant links.cptr[cur] != NULL <==> n < |w.kids[cur]|
        decreases |w.kids[cur]| - n
      {
        OrphanOne(cur, w, n);
        n := n + 1;
      }
    }

    method OrphanOne(cur: Proc, ghost w: World, ghost n: nat)
      requires Good(Now(), cur) && Orphaned(w, Now(), cur, n) && n < |w.kids[cur]| && cur != idle
      modifies `links, `state, `waiting, `kids
      ensures Good(Now(), cur) && Orphaned(w, Now(), cur, n + 1)
      ensures cur in links.cptr && (links.cptr[cur] != NULL <==> n + 1 < |w.kids[cur]|)
    {
      OrphanStep(w, Now(), cur, n);
      OrphansLeft(w, Adopted(Now(), cur), cur, n + 1);
      MoveToInit(cur);
    }

    /** The body of that loop. */
    method MoveToInit(cur: Proc)
      requires CanAdopt(Now(), cur) && cur != init
      modifies `links, `state, `waiting, `kids
      ensures Now() == Adopted(old(Now()), cur)
    {
      var q := links.cptr[cur];
      links := links.(cptr := links.cptr[cur := links.optr[q]]);
      SetLinks(init, q);
      kids := kids[cur := kids[cur][1..]][init := [q] + kids[init]];
      if state[q] == Zombie {
        if init in waiting {
          Wakeup(init);
        }
      }
    }

    // ---------- wait ----------

    /** One pass of do_wait, for any child or for the process found by its identifier
        (NULL if there is none): a zombie is reaped, else the caller goes to sleep if
        there is a child to wait for. */
    method Wait(cur: Proc, any: bool, found: Proc) returns (r: Outcome)
      requires Valid() && cur in kids && state[cur] != Zombie && cur !in waiting && (found != NULL ==> found in kids)
      modifies this
      ensures Valid()
      ensures r == BadProc <==> if any then old(kids)[cur] == [] else found !in old(kids)[cur]
      ensures r == BadProc ==> Now() == old(Now()) && list == old(list)
      ensures r == Slept ==> Now() == Asleep(old(Now()), cur, if any then NULL else found) && list == old(list)
      ensures r.Reaped? ==>
                && r.child in old(kids)[cur] && r.child in old(state) && old(state)[r.child] == Zombie && (!any ==> r.child == found)
                && kids.Keys == old(kids.Keys) - {r.child} && nrProcess == old(nrProcess) - 1
      ensures r.Reaped? <==> exists q :: q in old(kids)[cur] && q in old(state) && old(state)[q] == Zombie && (any || q == found)
    {
      var proc, haskid := NULL, false;
      if !any {
        ChildOrNot(Now(), cur, found);
        if found != NULL && links.parent[found] == cur {
          haskid := true;
          if state[found] == Zombie {
            proc := found;
          }
        }
      } else {
        proc, haskid := FindZombie(cur);
      }
      if proc != NULL {
        Reap(cur, proc);
        return Reaped(proc);
      }
      if haskid {
        ghost var c := if any then NULL else found;
        SleepKeepsGood(Now(), cur, c);
        Sleep(cur, c);
        return Slept;
      }
      return BadProc;
    }

    /** The loop of do_wait over the children: the youngest zombie. */
    method FindZombie(cur: Proc) returns (proc: Proc, haskid: bool)
      requires Good(Now(), NULL) && cur in kids
      ensures haskid <==> kids[cur] != []
      ensures proc == NULL ==> forall q :: q in kids[cur] && q in state ==> state[q] != Zombie
      ensures proc != NULL ==> proc in kids[cur] && proc in state && state[proc] == Zombie
    {
      ghost var k, i := kids[cur], 0;
      assert Chain(links, cur, k, NULL);
      haskid := false;
      proc := links.cptr[cur];
      assert |k| > 0 ==> Child(links, cur, k, 0, NULL);
      while proc != NULL
        invariant 0 <= i <= |k| && proc == Nth(k, i) && (haskid <==> i > 0) && (proc == NULL <==> i == |k|)
        invariant forall j :: 0 <= j < i && k[j] in state ==> state[k[j]] != Zombie
        decreases |k| - i
      {
        assert Child(links, cur, k, i, NULL) && k[i] in k;
        haskid := true;
        if state[proc] == Zombie {
          return;
        }
        proc := links.optr[proc];
        i := i + 1;
        assert i < |k| ==> Child(links, cur, k, i, NULL);
      }
    }

    method Sleep(cur: Proc, ghost c: Proc)
      modifies `state, `waiting, `awaited
      ensures Now() == Asleep(old(Now()), cur, c)
    {
      state := state[cur := Sleeping];
      waiting := waiting + {cur};
      awaited := awaited[cur := c];
    }

    /** The end of do_wait: the zombie disappears. */
    method Reap(cur: Proc, q: Proc)
      requires Valid() && cur in kids && cur !in waiting && q in kids[cur] && q in state && state[q] == Zombie
      modifies `links, `list, `nrProcess, `kids
      ensures Valid() && kids.Keys == old(kids.Keys) - {q} && nrProcess == old(nrProcess) - 1
    {
      ghost var w, l := Now(), list;
      ghost var i := PlaceOfChild(w, l, cur, q);
      var at := IndexOf(list, q);
      RemoveLinks(q, at);
      kids := kids[cur := Without(kids[cur], i)] - {q};
      assert Now() == ProcTree.Reaped(w, cur, i);
      ReapListed(l, w.kids, w.idle, cur, i, at);
    }

    /** remove_links, at being the place of the process on the process list. */
    method RemoveLinks(q: Proc, at: nat)
      requires Has(links, q) && at < |list| && list[at] == q
      modifies `links, `list, `nrProcess
      ensures links == Unlinked(old(links), q) && list == old(list)[..at] + old(list)[at + 1..]
      ensures nrProcess == old(nrProcess) - 1
    {
      list := list[..at] + list[at + 1..];
      if links.optr[q] != NULL {
        links := links.(yptr := links.yptr[links.optr[q] := links.yptr[q]]);
      }
      if links.yptr[q] != NULL {
        links := links.(optr := links.optr[links.yptr[q] := links.optr[q]]);
      } else {
        links := links.(cptr := links.cptr[links.parent[q] := links.optr[q]]);
      }
      nrProcess := nrProcess - 1;
    }
  }

  /** The table after proc_init. */
  ghost function First(idle: Proc, init: Proc): World {
    World(Links(map[idle := NULL, init := idle], map[idle := init, init := NULL],
                map[idle := NULL, init := NULL], map[idle := NULL, init := NULL]),
          map[idle := Runnable, init := Runnable], {}, map[], map[idle := [init], init := []], map[idle := 0, init := 1], 2, idle, init)
  }

  lemma FirstIsGood(idle: Proc, init: Proc)
    requires idle != NULL && init != NULL && idle != init
    ensures Good(First(idle, init), NULL)
  {
    var w := First(idle, init);
    FirstIsTree(idle, init);
    assert Younger(w, init);
  }

  lemma FirstIsTree(idle: Proc, init: Proc)
    requires idle != NULL && init != NULL && idle != init
    ensures var w := First(idle, init); Tree(w.links, w.kids, idle, NULL)
  {
    var w := First(idle, init);
    assert Child(w.links, idle, [init], 0, NULL);
    assert Chain(w.links, idle, [init], NULL) && Chain(w.links, init, [], NULL);
    assert Belongs(w.links, w.kids, init);
  }

  /** Where child q is among the children of cur; reaping it keeps the table sound. */
  lemma PlaceOfChild(w: World, list: seq<Proc>, cur: Proc, q: Proc) returns (i: nat)
    requires Good(w, NULL) && Listed(list, w.kids, w.idle) && cur in w.kids && cur !in w.waiting
    requires q in w.kids[cur] && q in w.state && w.state[q] == Zombie
    ensures i < |w.kids[cur]| && w.kids[cur][i] == q && Has(w.links, q) && q in list
    ensures Good(ProcTree.Reaped(w, cur, i), NULL) && ProcTree.Reaped(w, cur, i).kids.Keys == w.kids.Keys - {q}
  {
    i :| i < |w.kids[cur]| && w.kids[cur][i] == q;
    ReapKeepsGood(w, cur, i);
  }

  /** Whether q is a child of cur can be read off its parent pointer. */
  lemma ChildOrNot(w: World, cur: Proc, q: Proc)
    requires Good(w, NULL) && cur in w.kids && (q != NULL ==> q in w.kids)
    ensures q == NULL ==> q !in w.kids[cur]
    ensures q != NULL ==> q in w.links.parent && q in w.state && (w.links.parent[q] == cur <==> q in w.kids[cur])
  {
    if q in w.kids[cur] {
      OneParent(w.links, w.kids, w.idle, NULL, cur, q);
    } else if q != NULL && q != w.idle {
      assert Belongs(w.links, w.kids, q);
    }
  }

  lemma HasChild(w: World, p: Proc)
    requires Good(w, p) && p in w.kids
    ensures p in w.links.cptr && (w.links.cptr[p] != NULL <==> w.kids[p] != [])
  {
    assert Chain(w.links, p, w.kids[p], p);
    assert w.kids[p] != [] ==> Child(w.links, p, w.kids[p], 0, p);
  }

  /** The first n children of cur have gone to init. */
  ghost predicate Orphaned(w: World, w': World, cur: Proc, n: nat) {
    && cur in w.kids && cur != w.init && w.init in w.kids && n <= |w.kids[cur]| && w'.idle == w.idle && w'.init == w.init
    && w'.kids == Lost(w.kids, cur, w.init, n)
    && cur in w.links.parent && cur in w'.links.parent && w'.links.parent[cur] == w.links.parent[cur] && w'.waiting <= w.waiting && cur !in w.waiting
    && cur in w.state && cur in w'.state && w'.state[cur] == w.state[cur]
  }

  lemma OrphansLeft(w: World, w': World, cur: Proc, n: nat)
    requires Good(w', cur) && Orphaned(w, w', cur, n)
    ensures cur in w'.links.cptr && (w'.links.cptr[cur] != NULL <==> n < |w.kids[cur]|)
  {
    HasChild(w', cur);
    assert w'.kids[cur] == w.kids[cur][n..];
  }

  lemma OrphanStart(w: World, cur: Proc)
    requires Good(w, cur) && cur in w.kids && cur != w.init && cur in w.links.parent && cur !in w.waiting
    ensures Orphaned(w, w, cur, 0)
  {
    assert w.kids[cur][..0] == [] && w.kids[cur][0..] == w.kids[cur] && [] + w.kids[w.init] == w.kids[w.init];
  }

  lemma OrphanStep(w: World, w1: World, cur: Proc, n: nat)
    requires Good(w1, cur) && Orphaned(w, w1, cur, n) && n < |w.kids[cur]| && cur != w.idle
    ensures CanAdopt(w1, cur) && Good(Adopted(w1, cur), cur) && Orphaned(w, Adopted(w1, cur), cur, n + 1)
  {
    OrphanKids(w.kids, cur, w.init, n);
    AdoptKeepsGood(w1, cur);
  }

  ghost function Lost(kids: Kids, cur: Proc, init: Proc, n: nat): Kids
    requires cur in kids && init in kids && n <= |kids[cur]|
  {
    kids[cur := kids[cur][n..]][init := Reversed(kids[cur][..n]) + kids[init]]
  }

  lemma OrphanKids(kids: Kids, cur: Proc, init: Proc, n: nat)
    requires cur in kids && init in kids && cur != init && n < |kids[cur]|
    ensures var k1 := Lost(kids, cur, init, n);
            Lost(kids, cur, init, n + 1) == k1[cur := k1[cur][1..]][init := [k1[cur][0]] + k1[init]]
  {
    ReverseMore(kids[cur], n);
    assert [kids[cur][n]] + (Reversed(kids[cur][..n]) + kids[init]) == Reversed(kids[cur][..n + 1]) + kids[init];
  }

  lemma OrphanEnd(w: World, w': World, cur: Proc)
    requires Good(w', cur) && cur in w.kids && Orphaned(w, w', cur, |w.kids[cur]|)
    ensures Good(w', NULL) && w'.kids == w.kids[cur := []][w.init := Reversed(w.kids[cur]) + w.kids[w.init]]
    ensures w'.kids.Keys == w.kids.Keys
  {
    assert w.kids[cur][..|w.kids[cur]|] == w.kids[cur];
    ExitEnds(w', cur);
  }
}
