/** The user-level allocator (user/libs/malloc.c). Addresses are in units of the
    64-byte header. Only blocks of type 0 are ever requested, so types are left out. */
module Malloc {
  import opened Heap
  import B = Brk
  import V = Vmm
  import opened Wrappers

  const HEADER := 64                      // bytes in a unit
  const PAGE := 64                        // units in a page
  const LIMIT := 0x400_0000               // units in 4 GB
  const USER_BASE := 0x8000               // USERBASE and USERTOP in units
  const USER_TOP := 0x2C0_0000
  const NULL := 0

  /** The units malloc_locked asks for, in 32-bit arithmetic. */
  function Units(size: nat): (n: nat)
    requires size < 0x1_0000_0000
    ensures 0 < n <= LIMIT
  {
    (size + HEADER - 1) % 0x1_0000_0000 / HEADER + 1
  }

  /** The units behind the header hold the request exactly if it is at most 4 GB
      less one header; beyond that the sum wraps. */
  lemma UnitsSuffice(size: nat)
    requires size < 0x1_0000_0000
    ensures (Units(size) - 1) * HEADER >= size <==> size <= 0x1_0000_0000 - HEADER
  {
  }

  lemma LargestRequestsGetNothing()
    ensures Units(0xffff_ffff) == 1
  {
  }

  /** For each call of sys_brk that asks for more: whether the kernel has the room. */
  type Grants = nat -> bool

  /** ROUNDUP to a page, in 32 bits. */
  function RoundUp(a: nat): nat {
    (a + PAGE - 1) % LIMIT / PAGE * PAGE
  }

  /** An address of 32 bits, in units. */
  function Wrap(a: nat): nat
    requires a < 2 * LIMIT
  {
    if a < LIMIT then a else a - LIMIT
  }

  /** The end of the heap after do_brk: it leaves it alone, shrinks the heap, or grows
      it if it has the room. Both mm_unmap and mm_brk look after user space alone. */
  function DoBrk(start: int, end: nat, request: nat, grant: bool): nat {
    var end' := RoundUp(request);
    if request < start || end' == end then end
    else if end' < end then if USER_BASE <= end' && end <= USER_TOP then end' else end
    else if grant && USER_BASE <= end && end' <= USER_TOP then end' else end
  }

  /** It is the kernel's answer, in units. */
  lemma DoBrkIsAnswer(start: nat, end: nat, request: nat, grant: bool)
    requires start < LIMIT && end < LIMIT && request < LIMIT
    ensures B.BrkAfter(HEADER * start, HEADER * end, HEADER * request, grant, true) == HEADER * DoBrk(start, end, request, grant)
  {
    RoundUpInBytes(request);
  }

  lemma RoundUpInBytes(a: nat)
    requires a < LIMIT
    ensures V.RoundUp(HEADER * a) == HEADER * RoundUp(a)
  {
    var y := (a + PAGE - 1) % LIMIT;
    var q, r := y / PAGE, y % PAGE;
    assert y == if a + PAGE - 1 < LIMIT then a + PAGE - 1 else a + PAGE - 1 - LIMIT;
    var x := HEADER * y + HEADER - 1;
    assert (HEADER * a + 4095) % 0x1_0000_0000 == x;
    assert x == 4096 * q + (HEADER * r + HEADER - 1);
    PageAndOffset(q, HEADER * r + HEADER - 1);
  }

  /** Where the heap ends after asking for n more units. */
  function NewEnd(start: int, end: nat, n: nat, grant: bool): nat
    requires end < LIMIT && n <= LIMIT
  {
    DoBrk(start, end, Wrap(end + n), grant)
  }

  /** The end asked for wraps past 4 GB and lands inside the heap. */
  predicate Shrinks(start: int, end: nat, n: nat)
    requires end < LIMIT && n <= LIMIT
  {
    && end + n >= LIMIT && start <= end + n - LIMIT
    && USER_BASE <= RoundUp(end + n - LIMIT) < end <= USER_TOP
  }

  /** What asking for n units leads to: there is room for them, or nothing happens, or
      the heap shrinks, and that exactly if the sum wraps and lands inside it. */
  lemma AnswerToRequest(start: int, end: nat, n: nat, grant: bool)
    requires end < LIMIT && end % PAGE == 0 && 0 < n <= LIMIT
    ensures var end' := NewEnd(start, end, n, grant);
            && end' < LIMIT && end' % PAGE == 0 && (end' > end ==> grant && end' >= end + n)
            && (end' < end <==> Shrinks(start, end, n)) && (end' < end ==> start <= end')
  {
  }

  ghost predicate Fits(m: Mem, n: nat) {
    exists i: nat :: i < |m.ring| && Large(m, i, n)
  }

  ghost predicate Large(m: Mem, i: nat, n: nat) {
    i < |m.ring| && m.ring[i] in m.size && m.size[m.ring[i]] >= n
  }

  class Allocator {
    const base: nat                       // address of the sentinel
    const start: nat                      // where the kernel puts the heap
    var ptr: Links
    var size: Links
    var freep: nat
    var brk: nat                          // the end of the heap as malloc remembers it
    var kernelEnd: nat                    // as the kernel does
    ghost var ring: seq<int>
    ghost var free: set<int>
    ghost var blocks: set<int>

    ghost function End(): nat
      reads `brk
    {
      if brk == NULL then start else brk
    }

    ghost function State(): Mem
      reads `ptr, `size, `brk, `ring, `free, `blocks
    {
      Mem(ptr, size, ring, free, blocks, start, End())
    }

    /** The structure of the heap, whether its pages are mapped or not. */
    ghost predicate Sound()
      reads this
    {
      && NULL < base < start <= End() < LIMIT && End() % PAGE == 0
      && if freep == NULL then ring == [base] && size == map[] && free == {} && blocks == {} && End() == start
         else Inv(State(), base) && freep in ring
    }

    /** The heap is sound, and the kernel maps all of it. */
    ghost predicate Valid()
      reads this
    {
      Sound() && kernelEnd == End()
    }

    constructor (base: nat, start: nat)
      requires NULL < base < start < LIMIT && start % PAGE == 0
      ensures Valid() && freep == NULL && (forall b :: !IsTaken(State(), b)) && End() == start
    {
      this.base, this.start := base, start;
      ptr, size, freep, brk, kernelEnd := map[], map[], NULL, NULL, start;
      ring, free, blocks := [base], {}, {};
    }

    /** The search of free_locked for the node that block b comes after. */
    method FindPlace(b: nat) returns (p: nat, ghost t: nat)
      requires Ring(ptr, ring, base) && freep in ring && base < b && b !in ring
      requires forall q :: q in ring ==> q >= 0
      ensures Between(ring, t, b) && p == ring[t]
      ensures p < b && forall q :: q in ring && q < b ==> q <= p
    {
      p := freep;
      ghost var i: nat :| i < |ring| && ring[i] == p;
      t := Place(ring, b);
      assert Hop(ptr, ring, i);
      while !(b > p && b < ptr[p])
        invariant i < |ring| && p == ring[i] && Hop(ptr, ring, i) && Between(ring, t, b)
        decreases if i <= t then t - i else |ring| - i + t
      {
        assert ring[i] < b ==> i <= t;
        assert i < t ==> ring[i + 1] <= ring[t];
        if p >= ptr[p] && (b > p || b < ptr[p]) {
          break;
        }
        p := ptr[p];
        i := After(|ring|, i);
        assert Hop(ptr, ring, i);
      }
      assert i == t;
    }

    /** free_locked: the block joins the free blocks and fuses with its neighbours. */
    method FreeLocked(b: nat) returns (ghost t: nat)
      requires Valid() && freep != NULL && IsTaken(State(), b)
      modifies `ptr, `size, `freep, `ring, `free, `blocks
      ensures Valid() && freep != NULL
      ensures Between(old(ring), t, b) && freep == old(ring)[t]
      ensures old(ring)[t] in old(ptr) && State() == Freed(old(State()), t, b)
      ensures SameTaken(old(State()), State()) && forall c :: IsTaken(State(), c) <==> IsTaken(old(State()), c) && c != b
    {
      ghost var m := State();
      TakenIsNoNode(m, base, b);
      var p;
      p, t := FindPlace(b);
      FreeKeepsInv(m, base, t, b);
      FreedLinks(m, base, t, b);
      Splice(p, b);
      freep := p;
      ghost var m' := Freed(m, t, b);
      ring, free, blocks := m'.ring, m'.free, m'.blocks;
      assert State() == m';
    }

    /** The last statements of free_locked. */
    method Splice(p: nat, b: nat)
      requires p != b && p in ptr && p in size && b in size && ptr[p] in ptr && ptr[p] in size
      modifies `ptr, `size
      ensures size == SplicedSize(old(ptr), old(size), p, b) && ptr == SplicedPtr(old(ptr), old(size), p, b)
    {
      var next := ptr[p];
      if b + size[b] == next {
        size := size[b := size[b] + size[next]];
        ptr := ptr[b := ptr[next]];
      } else {
        ptr := ptr[b := next];
      }
      if p + size[p] == b {
        size := size[p := size[p] + size[b]];
        ptr := ptr[p := ptr[b]];
      } else {
        ptr := ptr[p := b];
      }
    }

    /** morecore_brk_locked: asks the kernel for nu units and frees what it gives.
        Without success the heap is as before, but the kernel may have unmapped its end.
        The new end is stored before the new block is freed, which does not look at it. */
    method Morecore(nu: nat, call: nat, grants: Grants) returns (ok: bool)
      requires Valid() && freep != NULL && 0 < nu <= LIMIT
      modifies `ptr, `size, `freep, `brk, `kernelEnd, `ring, `free, `blocks
      ensures Sound() && (ok ==> Valid()) && freep != NULL
      ensures kernelEnd == NewEnd(start, old(End()), nu, grants(call))
      ensures ok <==> NewEnd(start, old(End()), nu, grants(call)) > old(End())
      ensures !ok ==> State() == old(State()) && freep == old(freep)
      ensures ok ==> GrewTo(old(State()), State(), NewEnd(start, old(End()), nu, grants(call)), nu) && SameBlocks(old(State()), State())
      ensures ok ==> freep == Last(old(ring))
    {
      if brk == NULL {
        brk := start;
      }
      AnswerToRequest(start, brk, nu, grants(call));
      kernelEnd := NewEnd(start, brk, nu, grants(call));
      var newbrk := kernelEnd;
      if newbrk <= brk {
        return false;
      }
      ghost var m := State();
      GrowKeepsInv(m, base, newbrk);
      GrowLarge(m, base, nu, newbrk);
      FreeNewBlock(newbrk);
      ok := true;
    }

    method FreeNewBlock(newbrk: nat)
      requires Sound() && freep != NULL && NULL < brk < newbrk == kernelEnd < LIMIT && newbrk % PAGE == 0
      modifies `ptr, `size, `freep, `brk, `ring, `free, `blocks
      ensures Valid() && freep != NULL && Last(old(ring)) in old(ptr) && State() == Grown(old(State()), newbrk)
      ensures freep == Last(old(ring))
    {
      ghost var m := State();
      ExtendKeepsInv(m, base, newbrk);
      assert Sorted(ring) && Between(ring, |ring| - 1, brk);
      var p := brk;
      AddBlock(newbrk);
      ghost var t := FreeLocked(p);
      OnePlace(m.ring, t, |m.ring| - 1, p);
      assert t == |m.ring| - 1;
    }

    method AddBlock(newbrk: nat)
      requires 0 < brk < newbrk
      modifies `size, `brk, `blocks
      ensures State() == Extended(old(State()), newbrk) && brk == newbrk
    {
      size := size[brk := newbrk - brk];
      blocks := blocks + {brk};
      brk := newbrk;
    }

    /** malloc_locked takes n units from the free block after node prevp. */
    method Take(prevp: nat, p: nat, n: nat, ghost i: nat)
      requires Valid() && freep != NULL && 0 < n && i < |ring| && prevp == ring[i] && p == Next(ring, i)
      requires p in size && size[p] >= n
      modifies `ptr, `size, `freep, `ring, `free, `blocks
      ensures Valid() && freep != NULL && Took(old(State()), State(), p, n)
    {
      ghost var m := State();
      Neighbours(m, base, i);
      assert i + 1 < |ring|;
      Neighbours(m, base, i + 1);
      if size[p] == n {
        TakeWholeKeepsInv(m, base, i + 1);
        TakeWhole(prevp, p, i + 1);
      } else {
        TakePartKeepsInv(m, base, i + 1, n);
        TakePart(prevp, p, n, i + 1);
      }
      freep := prevp;
    }

    method TakeWhole(prevp: nat, p: nat, ghost i: nat)
      requires 0 < i < |ring| && prevp == ring[i - 1] && p == ring[i] && p in ptr
      modifies `ptr, `ring, `free
      ensures State() == TookWhole(old(State()), i) && prevp in ring
    {
      ptr := ptr[prevp := ptr[p]];
      ring, free := Unlinked(ring, i), free - {p};
      assert ring[i - 1] == prevp;
    }

    method TakePart(prevp: nat, p: nat, n: nat, ghost i: nat)
      requires 0 < i < |ring| && prevp == ring[i - 1] && p == ring[i] && p in ptr && p in size
      modifies `ptr, `size, `ring, `free, `blocks
      ensures State() == TookPart(old(State()), i, n) && prevp in ring
    {
      var np := p + n;
      ptr := ptr[prevp := np][np := ptr[p]];
      size := size[np := size[p] - n][p := n];
      ring, free, blocks := ring[i := np], free - {p} + {np}, blocks + {np};
      assert ring[i - 1] == prevp;
    }

    /** malloc_locked. It ends after at most two extensions of the heap, and extends
        it only if no free block is large enough. Blocks that are taken stay as they
        are, and stay mapped exactly if KeepsHeap; the new one holds the request unless
        its size is within a header of 4 GB. */
    method MallocLocked(bytes: nat, grants: Grants) returns (r: Option<nat>, ext: nat)
      requires Valid() && bytes < 0x1_0000_0000
      modifies this
      ensures Finished(r, old(State()), old(freep), Units(bytes), ext, grants)
      ensures r.Some? ==> ((size[r.value] - 1) * HEADER >= bytes <==> bytes <= 0x1_0000_0000 - HEADER)
    {
      var n := Units(bytes);
      UnitsSuffice(bytes);
      if freep == NULL {
        Init();
      }
      r, ext := Search(n, grants);
    }

    /** The first call makes the sentinel a ring of its own. */
    method Init()
      requires Valid() && freep == NULL
      modifies `ptr, `size, `freep
      ensures Valid() && freep == base && ring == [base] && size == map[base := 0] && blocks == {}
    {
      ptr, size, freep := ptr[base := base], size[base := 0], base;
      assert Hop(ptr, ring, 0);
    }

    /** The search stands at node i, with freep at node k. */
    ghost predicate Searching(prevp: int, p: int, m: Mem, f: nat, k: nat, i: nat, n: nat, ext: nat, grants: Grants)
      reads this
    {
      && Valid() && freep != NULL && i < |ring| && prevp == ring[i] && p == Next(ring, i) && k < |ring| && freep == ring[k]
      && Stage(m, f, State(), k, i, n, ext, grants) && SameBlocks(m, State()) && Sorted(m.ring) && m.ring[f] != NULL
    }

    /** The search is over: block r has been taken, if any. */
    ghost predicate Finished(r: Option<nat>, m: Mem, freep0: int, n: nat, ext: nat, grants: Grants)
      requires Usable(m, n)
      reads this
    {
      && Sound() && freep != NULL && ext <= 2 && (Fits(m, n) ==> ext == 0)
      && (r.Some? <==> Served(m, freep0, n, grants))
      && (kernelEnd == End() <==> KeepsHeap(m, freep0, n, grants)) && kernelEnd <= End()
      && SameTaken(m, State())
      && (r.Some? ==> !IsTaken(m, r.value) && r.value in size && size[r.value] == n)
      && (forall b :: IsTaken(State(), b) <==> IsTaken(m, b) || r == Some(b))
    }

    /** The loop of malloc_locked: look at every free block from the one after freep
        on, and ask for more memory when the search is back at freep. */
    method Search(n: nat, grants: Grants) returns (r: Option<nat>, ext: nat)
      requires Valid() && freep != NULL && 0 < n <= LIMIT
      modifies `ptr, `size, `freep, `brk, `kernelEnd, `ring, `free, `blocks
      ensures Finished(r, old(State()), old(freep), n, ext, grants)
    {
      ghost var m, f := State(), 0;
      f :| 0 <= f < |ring| && ring[f] == freep;
      ghost var i: nat, k: nat := f, f;
      var prevp: int := freep;
      Neighbours(m, base, i);
      var p: int := ptr[prevp];
      ext := 0;
      while true
        invariant Searching(prevp, p, m, f, k, i, n, ext, grants)
        decreases 2 - ext, Distance(|ring|, i, k)
      {
        var done;
        done, r, ext, k, i := Visit(prevp, p, n, ext, grants, m, f, k, i);
        if done {
          return;
        }
        prevp := p;
        p := ptr[p];
      }
    }

    /** The body of that loop. */
    method Visit(prevp: int, p: int, n: nat, ext: nat, grants: Grants, ghost m: Mem, ghost f: nat, ghost k: nat, ghost i: nat)
      returns (done: bool, r: Option<nat>, ext': nat, ghost k': nat, ghost i': nat)
      requires Searching(prevp, p, m, f, k, i, n, ext, grants)
      modifies `ptr, `size, `freep, `brk, `kernelEnd, `ring, `free, `blocks
      ensures done ==> Finished(r, m, m.ring[f], n, ext', grants)
      ensures !done ==> p in ptr && Searching(p, ptr[p], m, f, k', i', n, ext', grants)
      ensures !done ==> ext < ext' <= 2 || (ext' == ext && |ring| == |old(ring)| && Distance(|ring|, i', k') < Distance(|ring|, i, k))
    {
      done, r, ext', k', i' := true, None, ext, k, After(|ring|, i);
      Neighbours(State(), base, i);
      NodesArePositive(State(), base, i);
      if size[p] >= n {
        TakeFound(prevp, p, n, grants, m, f, k, i, ext);
        r := Some(p);
        return;
      }
      if p == freep {
        assert i' == k;
        var ok;
        ok, k' := AskForMore(n, grants, m, f, k, i, ext);
        if !ok {
          return;
        }
        ext' := ext + 1;
      } else {
        ScanMore(m, f, State(), k, i, n, ext, grants);
      }
      done := false;
      Neighbours(State(), base, i');
    }

    /** The search has found a large block. */
    method TakeFound(prevp: nat, p: nat, n: nat, grants: Grants, ghost m: Mem, ghost f: nat, ghost k: nat, ghost i: nat,
                     ghost ext: nat)
      requires Valid() && freep != NULL && i < |ring| && prevp == ring[i] && p == Next(ring, i) && p in size && size[p] >= n
      requires Stage(m, f, State(), k, i, n, ext, grants) && SameBlocks(m, State())
      modifies `ptr, `size, `freep, `ring, `free, `blocks
      ensures Valid() && freep != NULL && Served(m, m.ring[f], n, grants) && KeepsHeap(m, m.ring[f], n, grants)
      ensures Fits(m, n) ==> ext == 0
      ensures SameTaken(m, State()) && !IsTaken(m, p) && p in size && size[p] == n
      ensures forall b :: IsTaken(State(), b) <==> IsTaken(m, b) || b == p
    {
      FoundOne(m, f, State(), k, i, n, ext, grants);
      ghost var m1 := State();
      Take(prevp, p, n, i);
      TookAfter(m, m1, State(), p, n);
    }

    /** The search is back at freep. */
    method AskForMore(n: nat, grants: Grants, ghost m: Mem, ghost f: nat, ghost k: nat, ghost i: nat, ext: nat)
      returns (ok: bool, ghost k': nat)
      requires Valid() && freep != NULL && i < |ring| && k == After(|ring|, i) && freep == ring[k] && !Large(State(), k, n)
      requires Stage(m, f, State(), k, i, n, ext, grants) && SameBlocks(m, State())
      requires Sorted(m.ring) && m.ring[f] != NULL
      modifies `ptr, `size, `freep, `brk, `kernelEnd, `ring, `free, `blocks
      ensures Sound() && (ok ==> Valid()) && freep != NULL && SameBlocks(m, State()) && ext < 2 && !Fits(m, n)
      ensures !ok ==> !Served(m, m.ring[f], n, grants) && kernelEnd <= End()
      ensures !ok ==> (kernelEnd == End() <==> KeepsHeap(m, m.ring[f], n, grants))
      ensures ok ==> k' < |ring| && freep == ring[k'] && Stage(m, f, State(), k', k, n, ext + 1, grants)
      ensures ok ==> k < |ring| && ring[k] == old(freep)
    {
      ghost var m1 := State();
      k' := |ring| - 1;
      BackAtStart(m, f, m1, k, i, n, ext, grants);
      ok := Morecore(n, ext, grants);
      if ok {
        GrownStage(m, f, m1, State(), k, i, n, ext, grants);
        assert ring[k'] == Last(m1.ring) && ring[k] == m1.ring[k];
        SameBlocksTwice(m, m1, State());
      }
    }
  }

  /** The same blocks are taken, with the same sizes. */
  ghost predicate SameBlocks(m: Mem, m': Mem) {
    SameTaken(m, m') && forall b :: IsTaken(m', b) <==> IsTaken(m, b)
  }

  lemma SameBlocksTwice(m: Mem, m1: Mem, m2: Mem)
    requires SameBlocks(m, m1) && SameBlocks(m1, m2)
    ensures SameBlocks(m, m2)
  {
  }

  lemma TookAfter(m: Mem, m1: Mem, m2: Mem, p: int, n: int)
    requires SameBlocks(m, m1) && Took(m1, m2, p, n)
    ensures SameTaken(m, m2) && !IsTaken(m, p) && p in m2.size && m2.size[p] == n
    ensures forall b :: IsTaken(m2, b) <==> IsTaken(m, b) || b == p
  {
  }

  function After(len: nat, i: nat): nat
    requires i < len
  {
    if i + 1 < len then i + 1 else 0
  }

  /** How far the search is from coming back to node k. */
  function Distance(len: nat, i: nat, k: nat): nat
    requires i < len && k < len
  {
    if i < k then k - 1 - i else len - 1 - i + k
  }

  /** The memory of a first extension is found before the search is back at its start:
      it fuses with the last free block, or comes right after the node at freep. */
  ghost predicate FindsNew(m: Mem, freep: int)
    requires |m.ring| > 0
  {
    LastTouchesEnd(m) || freep == NULL || freep == Last(m.ring)
  }

  ghost predicate Usable(m: Mem, n: nat) {
    0 <= m.end < LIMIT && m.end % PAGE == 0 && 0 < n <= LIMIT && |m.ring| > 0
  }

  /** When a request for n units succeeds: a free block is large enough, or the
      kernel extends the heap, a second time if the search does not find the new memory. */
  ghost predicate Served(m: Mem, freep: int, n: nat, grants: Grants)
    requires Usable(m, n)
  {
    var end1 := NewEnd(m.lo, m.end, n, grants(0));
    AnswerToRequest(m.lo, m.end, n, grants(0));
    Fits(m, n) || (end1 > m.end && (FindsNew(m, freep) || NewEnd(m.lo, end1, n, grants(1)) > end1))
  }

  /** When a request for n units leaves the heap mapped: neither the first end asked for
      nor the second, if there is one, wraps around and lands inside the heap. */
  ghost predicate KeepsHeap(m: Mem, freep: int, n: nat, grants: Grants)
    requires Usable(m, n)
  {
    var end1 := NewEnd(m.lo, m.end, n, grants(0));
    AnswerToRequest(m.lo, m.end, n, grants(0));
    Fits(m, n) || (!Shrinks(m.lo, m.end, n) && (end1 > m.end && !FindsNew(m, freep) ==> !Shrinks(m.lo, end1, n)))
  }

  /** A heap of a free unit and a taken block, with 4 pages. */
  ghost function SmallHeap(): Mem {
    Mem(map[1 := 0x5_0000, 0x5_0000 := 1], map[1 := 0, 0x5_0000 := 1, 0x5_0001 := 0xff], [1, 0x5_0000],
        {0x5_0000}, {0x5_0000, 0x5_0001}, 0x5_0000, 0x5_0100)
  }

  lemma SmallHeapIsSound()
    ensures Inv(SmallHeap(), 1) && IsTaken(SmallHeap(), 0x5_0001)
  {
    var m := SmallHeap();
    assert Hop(m.ptr, m.ring, 0) && Hop(m.ptr, m.ring, 1);
    assert OnRing(m.ring, m.ring[1]);
  }

  /** Whatever room the kernel has: a request for some bytes less than 4 GB unmaps all
      of the taken block but its first 63 units. */
  lemma HugeRequestUnmapsTakenBlock(grants: Grants)
    ensures var m, n := SmallHeap(), Units(0xffff_c000);
            && Inv(m, 1) && IsTaken(m, 0x5_0001) && m.size[0x5_0001] == 0xff
            && Usable(m, n) && !KeepsHeap(m, 1, n, grants) && NewEnd(m.lo, m.end, n, grants(0)) == 0x5_0040
  {
    SmallHeapIsSound();
  }

  /** The first extension makes room, but the search comes back to its start, and the
      request fails if the kernel refuses a second one. */
  lemma RefusedInSpiteOfRoom()
    ensures var m, grants := SmallHeap(), (call: nat) => call == 0;
            && Inv(m, 1) && Usable(m, 2) && NewEnd(m.lo, m.end, 2, grants(0)) >= m.end + 2
            && !Served(m, 1, 2, grants) && KeepsHeap(m, 1, 2, grants)
  {
    SmallHeapIsSound();
  }

  /** Nor is a request safe whose first end does not wrap: the second one may. */
  lemma SecondRequestUnmaps()
    ensures var m, n, grants := SmallHeap(), Units(0x8800_0000), (call: nat) => true;
            && Inv(m, 1) && Usable(m, n) && !Shrinks(m.lo, m.end, n) && !KeepsHeap(m, 1, n, grants)
  {
    SmallHeapIsSound();
  }

  /** The nodes the search from f has passed when it stands at i are too small. */
  ghost predicate Scanned(m: Mem, f: nat, i: nat, n: nat) {
    forall j: nat :: j < |m.ring| && (if f <= i then f < j <= i else j > f || j <= i) ==> !Large(m, j, n)
  }

  /** What is known when the search for n units, begun at node f of heap m, stands at
      node i of heap m', with freep at node k, after ext extensions. */
  ghost predicate Stage(m: Mem, f: nat, m': Mem, k: nat, i: nat, n: nat, ext: nat, grants: Grants) {
    && Usable(m, n) && f < |m.ring| && i < |m'.ring| && m'.lo == m.lo
    && var end1 := NewEnd(m.lo, m.end, n, grants(0));
       AnswerToRequest(m.lo, m.end, n, grants(0));
       if ext == 0 then m' == m && k == f && Scanned(m, f, i, n)
       else
         && ext <= 2 && !Fits(m, n) && end1 > m.end
         && var last := |m'.ring| - 1;
            && Large(m', last, n)
            && if ext == 1 then
                 && m'.end == end1 && LastTouchesEnd(m') && (forall j: nat :: j < last ==> !Large(m', j, n))
                 && if LastTouchesEnd(m) then k == last
                    else k == last - 1 && last == |m.ring| && if f == k then i == k else i < k
               else
                 !LastTouchesEnd(m) && f != |m.ring| - 1 && i == last - 1 && NewEnd(m.lo, end1, n, grants(1)) > end1
  }

  lemma FoundOne(m: Mem, f: nat, m': Mem, k: nat, i: nat, n: nat, ext: nat, grants: Grants)
    requires Stage(m, f, m', k, i, n, ext, grants) && Large(m', After(|m'.ring|, i), n)
    ensures Served(m, m.ring[f], n, grants) && KeepsHeap(m, m.ring[f], n, grants) && (Fits(m, n) ==> ext == 0)
  {
    AnswerToRequest(m.lo, m.end, n, grants(0));
    if ext == 2 {
      AnswerToRequest(m.lo, NewEnd(m.lo, m.end, n, grants(0)), n, grants(1));
    }
  }

  lemma BackAtStart(m: Mem, f: nat, m': Mem, k: nat, i: nat, n: nat, ext: nat, grants: Grants)
    requires Stage(m, f, m', k, i, n, ext, grants) && k < |m'.ring| && After(|m'.ring|, i) == k && !Large(m', k, n)
    requires Sorted(m.ring) && m.ring[f] != NULL
    ensures ext < 2 && !Fits(m, n) && (ext == 1 ==> !LastTouchesEnd(m) && f != |m.ring| - 1)
    ensures 0 <= m'.end < LIMIT
    ensures var end' := NewEnd(m'.lo, m'.end, n, grants(ext));
            end' <= m'.end ==> !Served(m, m.ring[f], n, grants) && (KeepsHeap(m, m.ring[f], n, grants) <==> end' == m'.end)
  {
    AnswerToRequest(m.lo, m.end, n, grants(0));
    AnswerToRequest(m'.lo, m'.end, n, grants(ext));
  }

  lemma ScanMore(m: Mem, f: nat, m': Mem, k: nat, i: nat, n: nat, ext: nat, grants: Grants)
    requires Stage(m, f, m', k, i, n, ext, grants) && k < |m'.ring|
    requires After(|m'.ring|, i) != k && !Large(m', After(|m'.ring|, i), n)
    ensures Stage(m, f, m', k, After(|m'.ring|, i), n, ext, grants)
    ensures Distance(|m'.ring|, After(|m'.ring|, i), k) < Distance(|m'.ring|, i, k)
  {
  }

  /** What an extension does to the ring and to which blocks are large. */
  ghost predicate GrewTo(m: Mem, m': Mem, end': int, n: nat) {
    && m'.end == end' && LastTouchesEnd(m')
    && m'.ring == (if LastTouchesEnd(m) then m.ring else m.ring + [m.end])
    && Large(m', |m'.ring| - 1, n)
    && forall j: nat :: j < |m'.ring| - 1 ==> (Large(m', j, n) <==> Large(m, j, n))
  }

  lemma GrowLarge(m: Mem, base: int, n: nat, end': int)
    requires Inv(m, base) && m.end < end' && end' - m.end >= n
    ensures Last(m.ring) in m.ptr && GrewTo(m, Grown(m, end'), end', n)
  {
    GrowKeepsInv(m, base, end');
    GrowMeaning(m, base, end');
    Neighbours(m, base, |m.ring| - 1);
    GrowShape(m, end');
    var m' := Grown(m, end');
    forall j: nat | j < |m'.ring| - 1 ensures Large(m', j, n) <==> Large(m, j, n) {
      Neighbours(m, base, j);
    }
  }

  lemma GrownStage(m: Mem, f: nat, m1: Mem, m2: Mem, k: nat, i: nat, n: nat, ext: nat, grants: Grants)
    requires i < |m1.ring| && Stage(m, f, m1, k, i, n, ext, grants) && After(|m1.ring|, i) == k
    requires k < |m1.ring| && !Large(m1, k, n) && !Fits(m, n) && (ext == 1 ==> !LastTouchesEnd(m) && f != |m.ring| - 1)
    requires ext < 2 && 0 <= m1.end < LIMIT && m2.lo == m1.lo
    requires NewEnd(m1.lo, m1.end, n, grants(ext)) > m1.end && GrewTo(m1, m2, NewEnd(m1.lo, m1.end, n, grants(ext)), n)
    ensures Stage(m, f, m2, |m1.ring| - 1, k, n, ext + 1, grants)
    ensures |m1.ring| <= |m2.ring| && m2.ring[k] == m1.ring[k] && m2.ring[|m1.ring| - 1] == Last(m1.ring)
  {
  }

  function Last(ring: seq<int>): int
    requires |ring| > 0
  {
    ring[|ring| - 1]
  }

  lemma OnePlace(ring: seq<int>, t: nat, u: nat, b: int)
    requires Sorted(ring) && Between(ring, t, b) && Between(ring, u, b)
    ensures t == u
  {
  }

  /** Where a block belongs in the ring. */
  ghost function Place(ring: seq<int>, b: int): (t: nat)
    requires |ring| > 0 && ring[0] < b && Sorted(ring) && b !in ring
    ensures Between(ring, t, b)
  {
    if ring[|ring| - 1] < b then |ring| - 1 else Place(ring[..|ring| - 1], b)
  }

  lemma NodesArePositive(m: Mem, base: int, i: nat)
    requires Kept(m, base) && base > NULL && i < |m.ring|
    ensures m.ring[i] > NULL && Next(m.ring, i) > NULL
  {
  }

  lemma TakenIsNoNode(m: Mem, base: int, b: int)
    requires Kept(m, base) && IsTaken(m, b)
    ensures base < b && b !in m.ring && forall q :: q in m.ring ==> q >= base
  {
    assert Placed(m.size, m.lo, m.end, b);
  }
}
