/** Parent, child and sibling pointers of processes (kern/process/proc.c): every
    process heads a list of its children, from the youngest to the oldest, linked
    through optr and back through yptr. */
module Family {

  type Proc = nat                         // the address of a process
  const NULL := 0

  datatype Links = Links(parent: map<Proc, Proc>, cptr: map<Proc, Proc>, yptr: map<Proc, Proc>, optr: map<Proc, Proc>)

  type Kids = map<Proc, seq<Proc>>

  function Nth(k: seq<Proc>, i: int): Proc {
    if 0 <= i < |k| then k[i] else NULL
  }

  ghost predicate Has(l: Links, p: Proc) {
    p in l.parent && p in l.cptr && p in l.yptr && p in l.optr
  }

  /** Child i of p points to its parent, its older and its younger sibling. While p
      is losing its children, the first one still points to the last one lost. */
  ghost predicate Child(l: Links, p: Proc, k: seq<Proc>, i: nat, leaving: Proc)
    requires i < |k|
  {
    && k[i] != NULL && Has(l, k[i]) && l.parent[k[i]] == p
    && l.optr[k[i]] == Nth(k, i + 1) && (l.yptr[k[i]] == Nth(k, i - 1) || (p == leaving != NULL && i == 0))
  }

  /** The children of p are k. */
  ghost predicate Chain(l: Links, p: Proc, k: seq<Proc>, leaving: Proc) {
    && Has(l, p) && l.cptr[p] == Nth(k, 0)
    && (forall i: nat :: i < |k| ==> Child(l, p, k, i, leaving))
    && (forall i, j :: 0 <= i < j < |k| ==> k[i] != k[j])
  }

  /** Everyone's children, and everyone but the root is someone's child. Process
      leaving, if any, is losing its children. */
  ghost predicate Tree(l: Links, kids: Kids, root: Proc, leaving: Proc) {
    && root in kids && NULL !in kids
    && (forall p {:trigger Chain(l, p, kids[p], leaving)} :: p in kids ==> Chain(l, p, kids[p], leaving))
    && (forall p, q :: p in kids && q in kids[p] ==> q in kids && q != root)
    && (forall q {:trigger Belongs(l, kids, q)} :: q in kids && q != root ==> Belongs(l, kids, q))
  }

  /** Process q is in the list of its parent. */
  ghost predicate Belongs(l: Links, kids: Kids, q: Proc) {
    q in l.parent && l.parent[q] in kids && q in kids[l.parent[q]]
  }

  lemma Strict(l: Links, p: Proc, k: seq<Proc>, leaving: Proc)
    requires p != leaving && Chain(l, p, k, leaving)
    ensures Chain(l, p, k, NULL)
  {
    forall i: nat | i < |k| ensures Child(l, p, k, i, NULL) {
      assert Child(l, p, k, i, leaving);
    }
  }

  lemma Relaxed(l: Links, p: Proc, k: seq<Proc>, leaving: Proc)
    requires Chain(l, p, k, NULL)
    ensures Chain(l, p, k, leaving)
  {
    forall i: nat | i < |k| ensures Child(l, p, k, i, leaving) {
      assert Child(l, p, k, i, NULL);
    }
  }

  lemma OneParent(l: Links, kids: Kids, root: Proc, leaving: Proc, p: Proc, q: Proc)
    requires Tree(l, kids, root, leaving) && p in kids && q in kids[p]
    ensures Has(l, q) && l.parent[q] == p
  {
    var i: nat :| i < |kids[p]| && kids[p][i] == q;
    assert Chain(l, p, kids[p], leaving);
    assert Child(l, p, kids[p], i, leaving);
  }

  /** Whoever has no process left to lose is in order again. */
  lemma NobodyLeaves(l: Links, kids: Kids, root: Proc, leaving: Proc)
    requires Tree(l, kids, root, leaving) && leaving in kids && kids[leaving] == []
    ensures Tree(l, kids, root, NULL)
  {
    forall p | p in kids ensures Chain(l, p, kids[p], NULL) {
      assert Chain(l, p, kids[p], leaving);
      forall i: nat | i < |kids[p]| ensures Child(l, p, kids[p], i, NULL) {
        assert Child(l, p, kids[p], i, leaving);
      }
    }
  }

  lemma SomebodyLeaves(l: Links, kids: Kids, root: Proc, leaving: Proc)
    requires Tree(l, kids, root, NULL)
    ensures Tree(l, kids, root, leaving)
  {
    forall p | p in kids ensures Chain(l, p, kids[p], leaving) {
      Relaxed(l, p, kids[p], leaving);
    }
  }

  // ---------- a new youngest child ----------

  /** What set_links and the loop of do_exit write: q becomes the youngest child of p. */
  ghost function Pushed(l: Links, p: Proc, q: Proc): Links
    requires p in l.cptr
  {
    var older := l.cptr[p];
    Links(l.parent[q := p], l.cptr[p := q],
          if older != NULL then l.yptr[q := NULL][older := q] else l.yptr[q := NULL], l.optr[q := older])
  }

  lemma PushChain(l: Links, p: Proc, k: seq<Proc>, q: Proc)
    requires Chain(l, p, k, NULL) && q != NULL && q !in k && q != p && q in l.cptr
    ensures Chain(Pushed(l, p, q), p, [q] + k, NULL)
  {
    var l', k' := Pushed(l, p, q), [q] + k;
    assert |k| > 0 ==> Child(l, p, k, 0, NULL);
    forall i: nat | i < |k'| ensures Child(l', p, k', i, NULL) {
      assert i > 0 ==> Child(l, p, k, i - 1, NULL);
    }
  }

  /** The other lists do not notice. */
  lemma PushElsewhere(l: Links, p: Proc, k: seq<Proc>, q: Proc, p2: Proc, k2: seq<Proc>, leaving: Proc)
    requires Chain(l, p, k, NULL) && Chain(l, p2, k2, leaving) && p2 != p && q !in k2
    ensures Chain(Pushed(l, p, q), p2, k2, leaving)
  {
    var l' := Pushed(l, p, q);
    assert |k| > 0 ==> Child(l, p, k, 0, NULL);
    forall i: nat | i < |k2| ensures Child(l', p2, k2, i, leaving) {
      assert Child(l, p2, k2, i, leaving);
    }
  }

  /** alloc_proc: a process without relations. */
  ghost function Allocated(l: Links, p: Proc, q: Proc): Links {
    Links(l.parent[q := p], l.cptr[q := NULL], l.yptr[q := NULL], l.optr[q := NULL])
  }

  lemma AllocElsewhere(l: Links, p: Proc, q: Proc, p2: Proc, k2: seq<Proc>, leaving: Proc)
    requires Chain(l, p2, k2, leaving) && q != p2 && q !in k2
    ensures Chain(Allocated(l, p, q), p2, k2, leaving)
  {
    forall i: nat | i < |k2| ensures Child(Allocated(l, p, q), p2, k2, i, leaving) {
      assert Child(l, p2, k2, i, leaving);
    }
  }

  /** do_fork: a new child q of p. */
  lemma ForkKeepsTree(l: Links, kids: Kids, root: Proc, p: Proc, q: Proc)
    requires Tree(l, kids, root, NULL) && p in kids && q !in kids && q != NULL
    ensures p in Allocated(l, p, q).cptr
    ensures Tree(Pushed(Allocated(l, p, q), p, q), kids[q := []][p := [q] + kids[p]], root, NULL)
  {
    var l1 := Allocated(l, p, q);
    assert Chain(l, p, kids[p], NULL);
    forall p2 | p2 in kids ensures q !in kids[p2] && Chain(l1, p2, kids[p2], NULL) {
      assert Chain(l, p2, kids[p2], NULL);
      assert q !in kids[p2];
      AllocElsewhere(l, p, q, p2, kids[p2], NULL);
    }
    assert Chain(l1, q, [], NULL);
    var l2, kids' := Pushed(l1, p, q), kids[q := []][p := [q] + kids[p]];
    forall p2 | p2 in kids' ensures Chain(l2, p2, kids'[p2], NULL) {
      if p2 == p {
        PushChain(l1, p, kids[p], q);
      } else {
        PushElsewhere(l1, p, kids[p], q, p2, kids'[p2], NULL);
      }
    }
    forall q2 | q2 in kids' && q2 != root ensures Belongs(l2, kids', q2) {
      assert q2 != q ==> Belongs(l, kids, q2);
    }
  }

  // ---------- the children of an exiting process ----------

  /** One round of the loop of do_exit: the youngest child of p moves to init. */
  ghost function Moved(l: Links, p: Proc, init: Proc): Links
    requires p in l.cptr && l.cptr[p] in l.optr && init in l.cptr
  {
    var q := l.cptr[p];
    Pushed(l.(cptr := l.cptr[p := l.optr[q]]), init, q)
  }

  lemma PopChain(l: Links, p: Proc, k: seq<Proc>, leaving: Proc)
    requires Chain(l, p, k, leaving) && |k| > 0 && p != NULL
    ensures Has(l, k[0]) && l.cptr[p] == k[0] && Chain(l.(cptr := l.cptr[p := l.optr[k[0]]]), p, k[1..], p)
  {
    assert Child(l, p, k, 0, leaving);
    var l', k' := l.(cptr := l.cptr[p := l.optr[k[0]]]), k[1..];
    forall i: nat | i < |k'| ensures Child(l', p, k', i, p) {
      assert Child(l, p, k, i + 1, leaving);
    }
  }

  lemma PopElsewhere(l: Links, p: Proc, q: Proc, p2: Proc, k2: seq<Proc>, leaving: Proc)
    requires Chain(l, p2, k2, leaving) && p2 != p
    ensures Chain(l.(cptr := l.cptr[p := q]), p2, k2, leaving)
  {
    var l' := l.(cptr := l.cptr[p := q]);
    forall i: nat | i < |k2| ensures Child(l', p2, k2, i, leaving) {
      assert Child(l, p2, k2, i, leaving);
    }
  }

  lemma MoveKeepsTree(l: Links, kids: Kids, root: Proc, p: Proc, init: Proc)
    requires Tree(l, kids, root, p) && p in kids && init in kids && p != init && |kids[p]| > 0 && init !in kids[p]
    ensures p in l.cptr && l.cptr[p] == kids[p][0] && kids[p][0] in l.optr && init in l.cptr
    ensures Tree(Moved(l, p, init), kids[p := kids[p][1..]][init := [kids[p][0]] + kids[init]], root, p)
  {
    var q := kids[p][0];
    assert Chain(l, p, kids[p], p) && Chain(l, init, kids[init], p);
    PopChain(l, p, kids[p], p);
    PopLeaves(l, kids, root, p);
    MoveChains(l.(cptr := l.cptr[p := l.optr[q]]), kids[p := kids[p][1..]], p, init, q);
    MoveMembers(l, kids, root, p, init);
  }

  lemma PopLeaves(l: Links, kids: Kids, root: Proc, p: Proc)
    requires Tree(l, kids, root, p) && p in kids && |kids[p]| > 0 && kids[p][0] in l.optr
    ensures var q := kids[p][0]; var l1, kids1 := l.(cptr := l.cptr[p := l.optr[q]]), kids[p := kids[p][1..]];
            && q in l1.cptr && q != NULL
            && forall p2 :: p2 in kids ==> Chain(l1, p2, kids1[p2], p) && q !in kids1[p2]
  {
    var q := kids[p][0];
    var l1, kids1 := l.(cptr := l.cptr[p := l.optr[q]]), kids[p := kids[p][1..]];
    PopChain(l, p, kids[p], p);
    OneParent(l, kids, root, p, p, q);
    forall p2 | p2 in kids ensures Chain(l1, p2, kids1[p2], p) && q !in kids1[p2] {
      if p2 != p {
        PopElsewhere(l, p, l.optr[q], p2, kids[p2], p);
        if q in kids[p2] {
          OneParent(l, kids, root, p, p2, q);
        }
      }
    }
  }

  lemma MoveMembers(l: Links, kids: Kids, root: Proc, p: Proc, init: Proc)
    requires Tree(l, kids, root, p) && p in kids && init in kids && p != init && |kids[p]| > 0
    requires p in l.cptr && l.cptr[p] == kids[p][0] && kids[p][0] in l.optr && init in l.cptr
    ensures var kids' := kids[p := kids[p][1..]][init := [kids[p][0]] + kids[init]];
            && (forall p2, q2 :: p2 in kids' && q2 in kids'[p2] ==> q2 in kids' && q2 != root)
            && (forall q2 {:trigger Belongs(Moved(l, p, init), kids', q2)} ::
                  q2 in kids' && q2 != root ==> Belongs(Moved(l, p, init), kids', q2))
  {
    var q := kids[p][0];
    var kids', l' := kids[p := kids[p][1..]][init := [q] + kids[init]], Moved(l, p, init);
    OneParent(l, kids, root, p, p, q);
    forall p2, q2 | p2 in kids' && q2 in kids'[p2] ensures q2 in kids' && q2 != root {
      assert q2 in kids[p2] || q2 in kids[p];
    }
    forall q2 | q2 in kids' && q2 != root ensures Belongs(l', kids', q2) {
      assert Belongs(l, kids, q2);
      if l.parent[q2] == p && q2 != q {
        assert q2 in kids[p][1..];
      }
    }
  }

  lemma MoveChains(l: Links, kids: Kids, p: Proc, init: Proc, q: Proc)
    requires p in kids && init in kids && p != init && q != NULL && q != init && q in l.cptr
    requires forall p2 :: p2 in kids ==> Chain(l, p2, kids[p2], p) && q !in kids[p2]
    ensures init in l.cptr
    ensures forall p2 :: p2 in kids ==> Chain(Pushed(l, init, q), p2, kids[init := [q] + kids[init]][p2], p)
  {
    assert Chain(l, init, kids[init], p);
    Strict(l, init, kids[init], p);
    forall p2 | p2 in kids ensures Chain(Pushed(l, init, q), p2, kids[init := [q] + kids[init]][p2], p) {
      assert Chain(l, p2, kids[p2], p);
      if p2 == init {
        PushChain(l, init, kids[init], q);
        Relaxed(Pushed(l, init, q), init, [q] + kids[init], p);
      } else {
        PushElsewhere(l, init, kids[init], q, p2, kids[p2], p);
      }
    }
  }

  // ---------- a child is reaped ----------

  /** What remove_links writes. */
  ghost function Unlinked(l: Links, q: Proc): Links
    requires Has(l, q)
  {
    var older, younger := l.optr[q], l.yptr[q];
    var yptr := if older != NULL then l.yptr[older := younger] else l.yptr;
    if younger != NULL then l.(yptr := yptr, optr := l.optr[younger := older])
    else l.(yptr := yptr, cptr := l.cptr[l.parent[q] := older])
  }

  ghost function Without(k: seq<Proc>, i: nat): seq<Proc>
    requires i < |k|
  {
    k[..i] + k[i + 1..]
  }

  lemma UnlinkChain(l: Links, p: Proc, k: seq<Proc>, i: nat)
    requires Chain(l, p, k, NULL) && i < |k|
    ensures Has(l, k[i]) && Chain(Unlinked(l, k[i]), p, Without(k, i), NULL)
  {
    assert Child(l, p, k, i, NULL);
    var l', k' := Unlinked(l, k[i]), Without(k, i);
    assert i + 1 < |k| ==> Child(l, p, k, i + 1, NULL);
    assert i > 0 ==> Child(l, p, k, i - 1, NULL);
    forall j: nat | j < |k'| ensures Child(l', p, k', j, NULL) {
      assert Child(l, p, k, if j < i then j else j + 1, NULL);
    }
  }

  lemma UnlinkElsewhere(l: Links, p: Proc, k: seq<Proc>, i: nat, p2: Proc, k2: seq<Proc>)
    requires Chain(l, p, k, NULL) && i < |k| && Chain(l, p2, k2, NULL) && p2 != p
    ensures Has(l, k[i]) && Chain(Unlinked(l, k[i]), p2, k2, NULL)
  {
    assert Child(l, p, k, i, NULL);
    var l' := Unlinked(l, k[i]);
    assert i + 1 < |k| ==> Child(l, p, k, i + 1, NULL);
    assert i > 0 ==> Child(l, p, k, i - 1, NULL);
    forall j: nat | j < |k2| ensures Child(l', p2, k2, j, NULL) {
      assert Child(l, p2, k2, j, NULL);
    }
  }

  lemma RemoveKeepsTree(l: Links, kids: Kids, root: Proc, p: Proc, i: nat)
    requires Tree(l, kids, root, NULL) && p in kids && i < |kids[p]| && kids[p][i] in kids && kids[kids[p][i]] == []
    ensures Has(l, kids[p][i]) && kids[p][i] != p
    ensures Tree(Unlinked(l, kids[p][i]), kids[p := Without(kids[p], i)] - {kids[p][i]}, root, NULL)
  {
    var q := kids[p][i];
    assert Chain(l, p, kids[p], NULL);
    OneParent(l, kids, root, NULL, p, q);
    var l', kids' := Unlinked(l, q), kids[p := Without(kids[p], i)] - {q};
    forall p2 | p2 in kids' ensures Chain(l', p2, kids'[p2], NULL) {
      if p2 == p {
        UnlinkChain(l, p, kids[p], i);
      } else {
        assert Chain(l, p2, kids[p2], NULL);
        UnlinkElsewhere(l, p, kids[p], i, p2, kids[p2]);
      }
    }
    RemoveMembers(l, kids, root, p, i);
  }

  lemma RemoveMembers(l: Links, kids: Kids, root: Proc, p: Proc, i: nat)
    requires Tree(l, kids, root, NULL) && p in kids && i < |kids[p]| && kids[p][i] in kids && kids[kids[p][i]] == []
    requires Has(l, kids[p][i]) && kids[p][i] != p
    ensures var kids', l' := kids[p := Without(kids[p], i)] - {kids[p][i]}, Unlinked(l, kids[p][i]);
            && root in kids' && (forall p2, q2 :: p2 in kids' && q2 in kids'[p2] ==> q2 in kids' && q2 != root)
            && (forall q2 {:trigger Belongs(l', kids', q2)} :: q2 in kids' && q2 != root ==> Belongs(l', kids', q2))
  {
    var q := kids[p][i];
    var kids', l' := kids[p := Without(kids[p], i)] - {q}, Unlinked(l, q);
    assert Chain(l, p, kids[p], NULL);
    forall p2, q2 | p2 in kids' && q2 in kids'[p2] ensures q2 in kids' && q2 != root {
      assert q2 in kids[p2];
      if q2 == q {
        OneParent(l, kids, root, NULL, p, q);
        OneParent(l, kids, root, NULL, p2, q);
      }
    }
    forall q2 | q2 in kids' && q2 != root ensures Belongs(l', kids', q2) {
      assert Belongs(l, kids, q2);
      if l.parent[q2] == p {
        var j :| 0 <= j < |kids[p]| && kids[p][j] == q2;
        assert Without(kids[p], i)[if j < i then j else j - 1] == q2;
      }
    }
  }
}
