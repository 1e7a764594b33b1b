/** The list of virtual memory areas of one address space (kern/mm/vmm.c). */
module Vmm {
  import opened Areas
  import opened Wrappers

  function RoundDown(a: nat): (r: nat)
    ensures r <= a < r + PGSIZE && Aligned(r)
  {
    a - a % PGSIZE
  }

  /** ROUNDUP in 32 bits. */
  function RoundUp(a: nat): (r: nat)
    ensures Aligned(r) && (a + PGSIZE <= WORD ==> r - PGSIZE < a <= r)
  {
    RoundDown((a + PGSIZE - 1) % WORD)
  }

  lemma RoundAligned(a: nat)
    requires Aligned(a) && a < WORD
    ensures RoundDown(a) == a && RoundUp(a) == a
  {
  }

  datatype Status = Success | Invalid | NoMem | Panic

  class Vma {
    var start: nat
    var end: nat
    var flags: nat

    constructor (start: nat, end: nat, flags: nat)
      ensures Is(Area(start, end, flags))
    {
      this.start, this.end, this.flags := start, end, flags;
    }

    ghost predicate Is(a: Area)
      reads this
    {
      a == Area(start, end, flags)
    }

    /** vma_resize, with its assertions as what callers owe. */
    method Resize(start: nat, end: nat)
      requires Aligned(start) && Aligned(end)
      requires this.start <= start < end <= this.end
      modifies this
      ensures Is(Area(start, end, old(flags)))
    {
      this.start, this.end := start, end;
    }
  }

  class Mm {
    var list: seq<Vma>
    var cache: Vma?
    var mapCount: int
    ghost var areas: seq<Area>      // what the objects of the list say

    ghost predicate Valid()
      reads this, list
    {
      && |areas| == |list| && (forall i :: 0 <= i < |list| ==> list[i].Is(areas[i]))
      && Sorted(areas)
      && (cache != null ==> cache in list)
      && mapCount == |list|
    }

    constructor ()
      ensures Valid() && areas == [] && list == []
    {
      list, cache, mapCount, areas := [], null, 0, [];
    }

    lemma NoneTwice()
      requires Valid()
      ensures forall i, j :: 0 <= i < j < |list| ==> list[i] != list[j]
    {
      forall i, j | 0 <= i < j < |list| ensures list[i] != list[j] {
        assert areas[i].end <= areas[j].start;
        assert areas[i].start < areas[i].end;
      }
    }

    /** The scan of find_vma. */
    method Scan(addr: nat) returns (vma: Vma?, ghost i: nat)
      requires Valid()
      ensures vma == null <==> At(areas, addr).None?
      ensures vma != null ==> i < |list| && list[i] == vma && areas[i].Has(addr)
    {
      i := 0;
      var k := 0;
      while k < |list|
        invariant 0 <= k <= |list|
        invariant forall j :: 0 <= j < k ==> !areas[j].Has(addr)
      {
        if list[k].start <= addr && addr < list[k].end {
          AtIndex(areas, k, addr);
          return list[k], k;
        }
        k := k + 1;
      }
      AtNone(areas, addr);
      vma := null;
    }

    /** find_vma: with its one-entry cache it finds what a plain scan finds. */
    method FindVma(addr: nat) returns (vma: Vma?, ghost i: nat)
      requires Valid()
      modifies this`cache
      ensures Valid()
      ensures vma == null <==> At(areas, addr).None?
      ensures vma != null ==> i < |list| && list[i] == vma && areas[i].Has(addr) && At(areas, addr) == Some(areas[i])
    {
      i := 0;
      vma := cache;
      if !(vma != null && vma.start <= addr && vma.end > addr) {
        vma, i := Scan(addr);
      } else {
        i :| i < |list| && list[i] == vma;
      }
      if vma != null {
        AtIndex(areas, i, addr);
        cache := vma;
      }
    }

    /** Behind every area that does not start later. */
    method FindPlace(a: Area) returns (k: nat)
      requires Valid()
      ensures PlaceOf(areas, a, k)
    {
      k := 0;
      while k < |list| && list[k].start <= a.start
        invariant 0 <= k <= |list|
        invariant forall j :: 0 <= j < k ==> areas[j].start <= a.start
      {
        k := k + 1;
      }
      forall j | k <= j < |areas| ensures areas[j].start > a.start {
        assert j > k ==> areas[k].start < areas[k].end <= areas[j].start;
      }
    }

    /** insert_vma_struct.  The assertions hold exactly when the new area is not
        empty and overlaps no other; ok is false where they fail. */
    method InsertVma(vma: Vma) returns (ok: bool, ghost p: nat)
      requires Valid() && vma !in list
      requires vma.start < vma.end ==> WellFormed(Area(vma.start, vma.end, vma.flags))
      modifies this`list, this`mapCount, this`areas
      ensures Valid()
      ensures var a := Area(vma.start, vma.end, vma.flags);
              && (ok <==> a.start < a.end && Apart(old(areas), a))
              && (ok ==> PlaceOf(old(areas), a, p) && areas == Inserted(old(areas), a, p))
      ensures ok ==> p <= |old(list)| && list == old(list)[..p] + [vma] + old(list)[p..]
      ensures !ok ==> list == old(list) && areas == old(areas) && mapCount == old(mapCount)
    {
      p := 0;
      var a := Area(vma.start, vma.end, vma.flags);
      if !(vma.start < vma.end) {
        return false, p;
      }
      var k := FindPlace(a);
      p := k;
      NeighboursSuffice(areas, a, k);
      if k > 0 && !(list[k - 1].start < list[k - 1].end && list[k - 1].end <= vma.start) {
        return false, p;
      }
      if k < |list| && !(vma.end <= list[k].start && list[k].start < list[k].end) {
        return false, p;
      }
      LinkAt(k, vma, a);
      ok := true;
    }

    method LinkAt(k: nat, vma: Vma, ghost a: Area)
      requires Valid() && vma.Is(a) && WellFormed(a) && PlaceOf(areas, a, k) && Apart(areas, a)
      modifies this`list, this`mapCount, this`areas
      ensures Valid() && areas == Inserted(old(areas), a, k) && list == old(list)[..k] + [vma] + old(list)[k..]
    {
      InsertedSorted(areas, a, k);
      list := list[..k] + [vma] + list[k..];
      areas := Inserted(areas, a, k);
      mapCount := mapCount + 1;
    }

    /** remove_vma_struct of the k-th area. */
    method RemoveVma(k: nat)
      requires Valid() && k < |list|
      modifies this`list, this`cache, this`mapCount, this`areas
      ensures Valid()
      ensures list == Cut(old(list), k, k + 1) && areas == Cut(old(areas), k, k + 1)
    {
      ghost var l0, a0 := list, areas;
      NoneTwice();
      CutSorted(areas, k, k + 1);
      CutIndex(l0, k);
      CutIndex(a0, k);
      var vma := list[k];
      list := Cut(list, k, k + 1);
      areas := Cut(areas, k, k + 1);
      if cache == vma {
        cache := null;
      }
      mapCount := mapCount - 1;
      if cache != null {
        CutKeeps(l0, k, cache);
      }
    }

    /** mm_map: gives the pages of a range their flags if nothing is mapped there.
        Only the first address is looked up, so a range that starts in a hole and
        runs into an area fails the assertions of the insertion. */
    method MmMap(addr: nat, len: nat, flags: nat, nomem: bool) returns (r: Status)
      requires Valid() && addr < WORD && len < WORD
      modifies this`list, this`cache, this`mapCount, this`areas
      ensures Valid()
      ensures var s, e := RoundDown(addr), RoundUp((addr + len) % WORD);
              && (r.Invalid? <==> !UserAccess(s, e) || At(old(areas), s).Some?)
              && (r.NoMem? <==> !r.Invalid? && nomem)
              && (r.Success? <==> !nomem && UserAccess(s, e) && Hole(old(areas), s, e))
              && (r.Panic? <==> !nomem && UserAccess(s, e) && At(old(areas), s).None? && !Hole(old(areas), s, e))
              && (r.Success? ==> MapResult(old(areas), areas, s, e, flags))
              && (!r.Success? ==> areas == old(areas))
    {
      var s, e := RoundDown(addr), RoundUp((addr + len) % WORD);
      if !UserAccess(s, e) {
        return Invalid;
      }
      var vma: Vma?;
      ghost var i;
      vma, i := FindVma(s);
      if vma != null && e > vma.start {
        return Invalid;
      }
      if nomem {
        return NoMem;
      }
      ghost var a := Area(s, e, flags);
      ApartMeansHole(areas, a);
      var nvma := new Vma(s, e, flags);
      var ok;
      ghost var p;
      ok, p := InsertVma(nvma);
      if !ok {
        return Panic;
      }
      forall x: int ensures FlagsAt(areas, x) == if s <= x < e then Some(flags) else FlagsAt(old(areas), x) {
        InsertedMeaning(old(areas), a, p, x);
      }
      r := Success;
    }

    /** The middle of one area is unmapped: a new area takes over what lies before
        the hole and the old one keeps what lies behind it. */
    method SplitVma(vma: Vma, ghost i: nat, s: nat, e: nat) returns (ok: bool)
      requires Valid() && i < |list| && list[i] == vma && Aligned(s) && Aligned(e)
      requires areas[i].start < s < e < areas[i].end
      modifies this`list, this`mapCount, this`areas, vma
      ensures Valid() && ok && areas == Partly(old(areas), s, e, i, i + 1, true, true)
      ensures forall v :: v in list ==> v in old(list) || fresh(v)
    {
      NoneTwice();
      SplitArea(areas, s, e, i);
      var nvma := new Vma(vma.start, s, vma.flags);
      vma.Resize(e, vma.end);
      areas := areas[i := areas[i].(start := e)];
      ghost var behind := areas;
      ghost var p;
      ok, p := InsertVma(nvma);
      PlaceUnique(behind, Area(nvma.start, nvma.end, nvma.flags), p, i);
      MembersWith(old(list), p, nvma);
    }

    /** Takes the areas from the i-th on that start before e out of the list and
        pushes them on a stack, whose top is at the end. */
    method Detach(i: nat, e: nat) returns (freed: seq<Vma>, ghost m: nat)
      requires Valid() && i < |list| && areas[i].start < e
      modifies this`list, this`cache, this`mapCount, this`areas
      ensures Valid() && i < m && Detached(old(list), old(areas), i, m, e, list, areas, freed)
      ensures m < |old(areas)| ==> e <= old(areas)[m].start
    {
      ghost var l, a := list, areas;
      freed, m := [], i;
      DetachNone(l, a, i, e);
      while i < |list| && list[i].start < e
        invariant Valid() && Detached(l, a, i, m, e, list, areas, freed)
        decreases |list|
      {
        ghost var next := m + 1;
        freed := DetachOne(i, e, l, a, m, next, freed);
        m := next;
      }
      assert i < |list| ==> list[i].Is(areas[i]);
      DetachedAll(l, a, i, m, e, list, areas, freed);
    }

    method DetachOne(i: nat, e: nat, ghost l: seq<Vma>, ghost a: seq<Area>, ghost m: nat, ghost next: nat, freed0: seq<Vma>)
      returns (freed: seq<Vma>)
      requires Valid() && i < |list| && list[i].start < e && Detached(l, a, i, m, e, list, areas, freed0) && next == m + 1
      modifies this`list, this`cache, this`mapCount, this`areas
      ensures Valid() && |list| == |old(list)| - 1 && Detached(l, a, i, next, e, list, areas, freed)
    {
      assert list[i].Is(areas[i]);
      DetachMore(l, a, i, m, e, list, areas, freed0);
      freed := freed0 + [list[i]];
      RemoveVma(i);
    }

    /** What happens to one area that met [s, e): its remains go back into the list
        or it is dropped; r is the range that is unmapped. */
    method Reattach(vma: Vma, s: nat, e: nat, ghost a: Area) returns (ok: bool, r: (nat, nat), ghost p: nat)
      requires Valid() && vma !in list && vma.Is(a) && WellFormed(a) && Aligned(s) && Aligned(e) && s < e
      requires s < a.end && a.start < e && !(a.start < s && e < a.end)
      modifies this`list, this`mapCount, this`areas, vma
      ensures Valid() && r == Clip(a, s, e)
      ensures a.start < s ==> (ok <==> Apart(old(areas), a.(end := s)))
      ensures a.start >= s && e < a.end ==> (ok <==> Apart(old(areas), a.(start := e)))
      ensures a.start < s && ok ==> PlaceOf(old(areas), a.(end := s), p) && areas == Inserted(old(areas), a.(end := s), p)
      ensures a.start >= s && e < a.end && ok ==>
                PlaceOf(old(areas), a.(start := e), p) && areas == Inserted(old(areas), a.(start := e), p)
      ensures a.start >= s && a.end <= e ==> ok && areas == old(areas)
      ensures forall v :: v in list ==> v in old(list) || v == vma
    {
      ok, p := true, 0;
      var unStart, unEnd;
      if vma.start < s {
        unStart, unEnd := s, vma.end;
        vma.Resize(vma.start, unStart);
        ok, p := InsertVma(vma);
      } else {
        unStart, unEnd := vma.start, vma.end;
        if e < unEnd {
          unEnd := e;
          vma.Resize(unEnd, vma.end);
          ok, p := InsertVma(vma);
        }
      }
      r := (unStart, unEnd);
    }

    /** The areas on the stack below index k wait to be put back: they are not listed. */
    ghost predicate Stacked(freed: seq<Vma>, k: nat, a0: seq<Area>, i: nat)
      requires i + |freed| <= |a0|
      reads this, freed
    {
      && k <= |freed| && (forall q :: 0 <= q < k ==> freed[q] !in list && freed[q].Is(a0[i + q]))
      && (forall q, r :: 0 <= q < r < |freed| ==> freed[q] != freed[r])
    }

    /** All areas of the list are among objs. */
    ghost predicate Among(objs: set<Vma>)
      reads `list
    {
      forall v :: v in list ==> v in objs
    }

    /** The second loop of mm_unmap: pops the areas that met [s, e) off the stack. */
    method ReattachAll(freed: seq<Vma>, s: nat, e: nat, ghost a0: seq<Area>, ghost i: nat, ghost m: nat, ghost objs: set<Vma>)
      returns (ok: bool, gone: seq<(nat, nat)>)
      requires Valid() && Sorted(a0) && Spans(a0, s, e, i, m) && Aligned(s) && Aligned(e)
      requires !(i == m - 1 && a0[i].start < s && e < a0[i].end)
      requires areas == Partly(a0, s, e, i, m, false, false)
      requires |freed| == m - i && Stacked(freed, |freed|, a0, i) && Among(objs) && forall q :: 0 <= q < |freed| ==> freed[q] in objs
      modifies this`list, this`mapCount, this`areas, freed
      ensures Valid() && ok && areas == Partly(a0, s, e, i, m, true, true)
      ensures Clips(a0, s, e, i, m, gone) && Among(objs)
    {
      ok, gone := true, [];
      var k := |freed|;
      while k > 0
        invariant 0 <= k <= |freed| && Valid() && ok && Stacked(freed, k, a0, i) && Among(objs)
        invariant areas == Partly(a0, s, e, i, m, k == 0, k < m - i)
        invariant |gone| == m - i - k && forall q :: 0 <= q < |gone| ==> gone[q] == Clip(a0[m - 1 - q], s, e)
      {
        k := k - 1;
        var r;
        ok, r := Pop(freed, k, s, e, a0, i, m, objs);
        gone := gone + [r];
      }
    }

    /** The body of that loop. */
    method Pop(freed: seq<Vma>, k: nat, s: nat, e: nat, ghost a0: seq<Area>, ghost i: nat, ghost m: nat, ghost objs: set<Vma>)
      returns (ok: bool, r: (nat, nat))
      requires Valid() && Sorted(a0) && Spans(a0, s, e, i, m) && Aligned(s) && Aligned(e)
      requires !(i == m - 1 && a0[i].start < s && e < a0[i].end)
      requires k < |freed| == m - i && Stacked(freed, k + 1, a0, i) && Among(objs) && freed[k] in objs
      requires areas == Partly(a0, s, e, i, m, false, k + 1 < m - i)
      modifies this`list, this`mapCount, this`areas, freed[k]
      ensures Valid() && ok && r == Clip(a0[i + k], s, e) && Stacked(freed, k, a0, i) && Among(objs)
      ensures areas == Partly(a0, s, e, i, m, k == 0, true)
    {
      ReattachStep(a0, s, e, i, m, k);
      ghost var p;
      ok, r, p := Reattach(freed[k], s, e, a0[i + k]);
    }

    /** The first loop of mm_unmap, and what holds of the list and the stack after it. */
    method DetachAll(i: nat, s: nat, e: nat, ghost objs: set<Vma>) returns (freed: seq<Vma>, ghost m: nat)
      requires Valid() && i < |list| && areas[i].Has(s) && s < e && objs == set v | v in list
      modifies this`list, this`cache, this`mapCount, this`areas
      ensures Valid() && Spans(old(areas), s, e, i, m) && |freed| == m - i && Stacked(freed, |freed|, old(areas), i)
      ensures Among(objs) && (forall q :: 0 <= q < |freed| ==> freed[q] in objs)
      ensures areas == Partly(old(areas), s, e, i, m, false, false)
    {
      ghost var l0, a0 := list, areas;
      NoneTwice();
      freed, m := Detach(i, e);
      DetachedApart(l0, i, m, list, freed);
      forall q | 0 <= q < |freed| ensures freed[q].Is(a0[i + q]) {
        assert freed[q] == l0[i + q];
      }
      assert Cut(a0, i, m) == Partly(a0, s, e, i, m, false, false);
    }

    /** The range reaches to the end of its first area or beyond. */
    method UnmapAcross(i: nat, s: nat, e: nat) returns (gone: seq<(nat, nat)>)
      requires Valid() && i < |list| && areas[i].Has(s) && s < e && Aligned(s) && Aligned(e)
      requires !(areas[i].start < s && e < areas[i].end)
      modifies this`list, this`cache, this`mapCount, this`areas, list
      ensures Valid() && UnmapResult(old(areas), areas, s, e, gone) && forall v :: v in list ==> v in old(list)
    {
      ghost var a0, objs := areas, set v | v in list;
      var freed;
      ghost var m;
      freed, m := DetachAll(i, s, e, objs);
      var ok;
      ok, gone := ReattachAll(freed, s, e, a0, i, m, objs);
      PartlyIsUnmapped(a0, s, e, i, m, gone);
    }

    /** mm_unmap once the range is known to start in the i-th area. */
    method UnmapFrom(vma: Vma, i: nat, s: nat, e: nat, nomem: bool) returns (r: Status, gone: seq<(nat, nat)>)
      requires Valid() && i < |list| && list[i] == vma && areas[i].Has(s) && s < e && Aligned(s) && Aligned(e)
      modifies this`list, this`cache, this`mapCount, this`areas, list
      ensures Valid()
      ensures r == if nomem && old(areas)[i].start < s && e < old(areas)[i].end then NoMem else Success
      ensures r.NoMem? ==> areas == old(areas) && list == old(list) && gone == []
      ensures r.Success? ==> UnmapResult(old(areas), areas, s, e, gone)
      ensures forall v :: v in list ==> v in old(list) || fresh(v)
    {
      if vma.start < s && e < vma.end {
        if nomem {
          return NoMem, [];
        }
        SplitArea(areas, s, e, i);
        var ok := SplitVma(vma, i, s, e);
        gone := [(s, e)];
        PartlyIsUnmapped(old(areas), s, e, i, i + 1, gone);
      } else {
        gone := UnmapAcross(i, s, e);
      }
      r := Success;
    }

    /** mm_unmap.  Where the range starts in some area, exactly its addresses lose
        their flags and exactly the mapped ones are handed to unmap_range; a range
        that starts in a hole is left alone altogether. */
    method MmUnmap(addr: nat, len: nat, nomem: bool) returns (r: Status, gone: seq<(nat, nat)>)
      requires Valid() && addr < WORD && len < WORD
      modifies this`list, this`cache, this`mapCount, this`areas, list
      ensures Valid() && !r.Panic? && forall v :: v in list ==> v in old(list) || fresh(v)
      ensures var s, e := RoundDown(addr), RoundUp((addr + len) % WORD);
              && (r.Invalid? <==> !UserAccess(s, e))
              && (r.NoMem? <==> nomem && UserAccess(s, e) && Splits(old(areas), s, e))
              && (!r.Success? ==> areas == old(areas) && list == old(list) && gone == [])
              && (r.Success? && At(old(areas), s).Some? ==> UnmapResult(old(areas), areas, s, e, gone))
              && (r.Success? && At(old(areas), s).None? ==> areas == old(areas) && list == old(list) && gone == [])
              && (r.Success? ==> (UnmapResult(old(areas), areas, s, e, gone) <==>
                                  At(old(areas), s).Some? || Hole(old(areas), s, e)))
    {
      var s, e := RoundDown(addr), RoundUp((addr + len) % WORD);
      if !UserAccess(s, e) {
        return Invalid, [];
      }
      var vma: Vma?;
      ghost var i;
      vma, i := FindVma(s);
      if vma == null || e <= vma.start {
        NothingToUnmap(areas, s, e);
        return Success, [];
      }
      var k := IndexOf(list, vma);         // C gets there by the list_link of the area
      NoneTwice();
      r, gone := UnmapFrom(vma, k, s, e, nomem);
    }

    /** user_mem_check: true exactly when the range is a non-empty stretch of user
        space, without wrap-around, and every address of it is allowed. */
    method UserMemCheck(addr: nat, len: nat, write: bool) returns (ok: bool)
      requires Valid() && addr < WORD && len < WORD
      modifies this`cache
      ensures Valid()
      ensures ok <==> UserAccess(addr, addr + len) && AllAllowed(areas, addr, addr + len, write)
    {
      if !UserAccess(addr, (addr + len) % WORD) {
        return false;
      }
      var start, end := addr, (addr + len) % WORD;
      while start < end
        invariant Valid() && addr <= start && end == addr + len
        invariant AllAllowed(areas, addr, start, write)
        decreases end - start
      {
        var vma: Vma?;
        ghost var i;
        vma, i := FindVma(start);
        if vma == null || start < vma.start {
          assert !Allowed(areas, start, write);
          return false;
        }
        AllowedThrough(areas, i, start, write);
        if !HasFlag(vma.flags, if write then VM_WRITE else VM_READ) {
          return false;
        }
        if write && HasFlag(vma.flags, VM_STACK) {
          if start < vma.start + PGSIZE {
            return false;
          }
        }
        start := vma.end;
      }
      ok := true;
    }
  }

  /** user_mem_check: a kernel thread, which has no areas, may use kernel addresses. */
  method UserMemCheck(mm: Mm?, addr: nat, len: nat, write: bool) returns (ok: bool)
    requires addr < WORD && len < WORD && (mm != null ==> mm.Valid())
    modifies if mm == null then {} else {mm}
    ensures mm == null ==> (ok <==> KernAccess(addr, addr + len))
    ensures mm != null ==> mm.Valid() && mm.areas == old(mm.areas) && mm.list == old(mm.list)
    ensures mm != null ==> (ok <==> UserAccess(addr, addr + len) && AllAllowed(mm.areas, addr, addr + len, write))
  {
    if mm != null {
      ok := mm.UserMemCheck(addr, len, write);
    } else {
      ok := KernAccess(addr, (addr + len) % WORD);
    }
  }

  lemma MembersWith(l: seq<Vma>, p: nat, vma: Vma)
    requires p <= |l|
    ensures forall v :: v in l[..p] + [vma] + l[p..] ==> v in l || v == vma
  {
  }

  /** What is cut out of a list without repetition is no longer in it. */
  lemma DetachedApart(l0: seq<Vma>, i: nat, m: nat, l: seq<Vma>, freed: seq<Vma>)
    requires i <= m <= |l0| && l == Cut(l0, i, m) && freed == l0[i..m] && forall q, r :: 0 <= q < r < |l0| ==> l0[q] != l0[r]
    ensures forall q :: 0 <= q < |freed| ==> freed[q] !in l && freed[q] in l0
    ensures forall q, r :: 0 <= q < r < |freed| ==> freed[q] != freed[r]
    ensures forall v :: v in l ==> v in l0
  {
    forall q, j | 0 <= q < |freed| && 0 <= j < |l| ensures l[j] != freed[q] {
      assert l[j] == l0[if j < i then j else j + m - i];
    }
  }

  /** A range that starts in a hole and runs into an area: mm_unmap leaves the area alone,
      and mm_map fails an assertion. */
  lemma AreaBehindHole()
    ensures var l, s, e := [Area(0x30_0000, 0x30_1000, VM_READ)], 0x20_0000, 0x30_1000;
            && Sorted(l) && UserAccess(s, e) && At(l, s).None? && !Hole(l, s, e)
            && !UnmapResult(l, l, s, e, [])
  {
    var l := [Area(0x30_0000, 0x30_1000, VM_READ)];
    AtIndex(l, 0, 0x30_0000);
    assert At(l, 0x30_0000).Some?;
    NothingToUnmap(l, 0x20_0000, 0x30_1000);
  }

  // ---------- strings in memory ----------

  /** What a process may read: user addresses its areas allow, or, for a kernel thread
      without areas, kernel addresses. */
  type View = Option<seq<Area>>

  ghost function ViewOf(mm: Mm?): View
    reads mm
  {
    if mm == null then None else Some(mm.areas)
  }

  ghost predicate Lawful(view: View) {
    view.Some? ==> Sorted(view.value)
  }

  /** What user_mem_check answers for reading [s, e). */
  ghost predicate Passes(view: View, s: nat, e: nat) {
    match view
    case None => KernAccess(s, e)
    case Some(l) => UserAccess(s, e) && AllAllowed(l, s, e, false)
  }

  /** copy_string: succeeds exactly when the string ends within maxn bytes and
      all of it, terminator included, is readable; then dst is the string with its
      terminator. */
  method CopyString(mm: Mm?, mem: int -> int, src: nat, maxn: nat) returns (ok: bool, dst: seq<int>)
    requires src < WORD && maxn < WORD && (mm != null ==> mm.Valid())
    modifies if mm == null then {} else {mm}
    ensures mm != null ==> mm.Valid() && mm.list == old(mm.list)
    ensures ViewOf(mm) == old(ViewOf(mm))
    ensures ok <==> exists k :: StringAt(ViewOf(mm), mem, src, maxn, k)
    ensures ok ==> exists k :: StringAt(ViewOf(mm), mem, src, maxn, k) && dst == Slice(mem, src, k + 1)
  {
    dst := [];
    var from, left := src, maxn;
    var part := (RoundDown((src + PGSIZE) % WORD) - src) % WORD;
    PartIsRestOfPage(src);
    ghost var view, l := ViewOf(mm), ListOf(mm);
    while true
      invariant Stays(mm, view, l) && Lawful(view)
      invariant src <= from < WORD && maxn == left + (from - src) && left >= 0
      invariant part == RestOfPage(from) && CopiedTo(view, mem, src, from, dst)
      decreases left
    {
      if part > left {
        part := left;
      }
      var readable := CheckPart(mm, from, part, view, l);
      if !readable {
        UnreadablePart(view, mem, src, maxn, from, part, dst);
        return false, dst;
      }
      var alen := Strnlen(mem, from, part);
      if alen < part {
        StringEnds(view, mem, src, maxn, from, part, alen, dst);
        dst := dst + Slice(mem, from, alen + 1);
        return true, dst;
      }
      CopyOn(view, mem, src, from, part, dst);
      if part == left {
        NoStringWithin(view, mem, src, maxn, dst + Slice(mem, from, part));
        return false, dst;
      }
      dst := dst + Slice(mem, from, part);
      StartOfNextPage(from);
      from, left := from + part, left - part;
      part := PGSIZE;
    }
  }

  ghost function RestOfPage(a: nat): nat {
    PGSIZE - a % PGSIZE
  }

  lemma StartOfNextPage(a: nat)
    ensures RestOfPage(a + RestOfPage(a)) == PGSIZE
  {
  }

  ghost function ListOf(mm: Mm?): seq<Vma>
    reads mm
  {
    if mm == null then [] else mm.list
  }

  ghost predicate Stays(mm: Mm?, view: View, l: seq<Vma>)
    reads mm, l
  {
    ViewOf(mm) == view && ListOf(mm) == l && (mm != null ==> mm.Valid())
  }

  method CheckPart(mm: Mm?, from: nat, part: nat, ghost view: View, ghost l: seq<Vma>) returns (readable: bool)
    requires Stays(mm, view, l) && from < WORD && part < WORD
    modifies if mm == null then {} else {mm}
    ensures Stays(mm, view, l) && (readable <==> Passes(view, from, from + part))
  {
    readable := UserMemCheck(mm, from, part, false);
  }

  ghost predicate NoNul(mem: int -> int, s: int, e: int) {
    forall x: int :: s <= x < e ==> mem(x) != 0
  }

  ghost predicate FirstNul(mem: int -> int, s: int, k: int) {
    mem(s + k) == 0 && NoNul(mem, s, s + k)
  }

  ghost predicate ReadableByte(view: View, x: int) {
    match view
    case None => KERNBASE <= x < KERNTOP
    case Some(l) => USERBASE <= x < USERTOP && Allowed(l, x, false)
  }

  ghost predicate Readable(view: View, s: int, e: int) {
    forall x: int :: s <= x < e ==> ReadableByte(view, x)
  }

  /** A string of k bytes and its terminator start at src, within maxn bytes, and
      all of it can be read. */
  ghost predicate StringAt(view: View, mem: int -> int, src: int, maxn: int, k: int) {
    0 <= k < maxn && FirstNul(mem, src, k) && Readable(view, src, src + k + 1)
  }

  function Slice(mem: int -> int, s: int, n: nat): seq<int> {
    seq(n, i => mem(s + i))
  }

  lemma SliceMore(mem: int -> int, s: int, n: nat, k: nat)
    ensures Slice(mem, s, n) + Slice(mem, s + n, k) == Slice(mem, s, n + k)
  {
  }

  /** The bytes [src, from) are readable, hold no terminator and have been copied. */
  ghost predicate CopiedTo(view: View, mem: int -> int, src: nat, from: nat, dst: seq<int>) {
    src <= from && NoNul(mem, src, from) && Readable(view, src, from) && dst == Slice(mem, src, from - src)
  }

  lemma ReadableMore(view: View, src: nat, from: nat, end: nat, part: nat)
    requires src <= from <= end <= from + part && Readable(view, src, from)
    requires Passes(view, from, from + part)
    ensures Readable(view, src, end)
  {
    forall x: int | src <= x < end ensures ReadableByte(view, x) {
      if view.Some? && x >= from {
        assert Allowed(view.value, x, false);
      }
    }
  }

  lemma CopyOn(view: View, mem: int -> int, src: nat, from: nat, part: nat, dst: seq<int>)
    requires CopiedTo(view, mem, src, from, dst) && NoNul(mem, from, from + part)
    requires Passes(view, from, from + part)
    ensures CopiedTo(view, mem, src, from + part, dst + Slice(mem, from, part))
  {
    ReadableMore(view, src, from, from + part, part);
    SliceMore(mem, src, from - src, part);
  }

  lemma StringEnds(view: View, mem: int -> int, src: nat, maxn: nat, from: nat, part: nat, alen: nat, dst: seq<int>)
    requires CopiedTo(view, mem, src, from, dst) && NoNul(mem, from, from + alen)
    requires alen < part <= maxn - (from - src) && mem(from + alen) == 0
    requires Passes(view, from, from + part)
    ensures var k := from - src + alen;
            StringAt(view, mem, src, maxn, k) && dst + Slice(mem, from, alen + 1) == Slice(mem, src, k + 1)
  {
    ReadableMore(view, src, from, from + alen + 1, part);
    SliceMore(mem, src, from - src, alen + 1);
  }

  lemma NoStringWithin(view: View, mem: int -> int, src: nat, maxn: nat, dst: seq<int>)
    requires CopiedTo(view, mem, src, src + maxn, dst)
    ensures forall k :: !StringAt(view, mem, src, maxn, k)
  {
  }

  lemma PartIsRestOfPage(src: nat)
    requires src < WORD
    ensures (RoundDown((src + PGSIZE) % WORD) - src) % WORD == RestOfPage(src)
  {
    var page, off := src / PGSIZE, src % PGSIZE;
    if src + PGSIZE < WORD {
      PageAndOffset(page + 1, off);
      assert RoundDown(src + PGSIZE) == PGSIZE * (page + 1);
    } else {
      assert src + PGSIZE - WORD < PGSIZE && RoundDown(src + PGSIZE - WORD) == 0;
      assert page == WORD / PGSIZE - 1;
    }
  }

  method Strnlen(mem: int -> int, s: int, part: nat) returns (n: nat)
    ensures n <= part && NoNul(mem, s, s + n) && (n < part ==> mem(s + n) == 0)
  {
    n := 0;
    while n < part && mem(s + n) != 0
      invariant n <= part && NoNul(mem, s, s + n)
    {
      n := n + 1;
    }
  }

  /** Where the check of a part fails, no string can be read: the part does not go
      beyond the page of its first byte. */
  lemma UnreadablePart(view: View, mem: int -> int, src: nat, maxn: nat, from: nat, part: nat, dst: seq<int>)
    requires Lawful(view) && CopiedTo(view, mem, src, from, dst)
    requires part <= PGSIZE - from % PGSIZE && (part == 0 ==> from - src >= maxn)
    requires !(Passes(view, from, from + part))
    ensures forall k :: !StringAt(view, mem, src, maxn, k)
  {
    forall k ensures !StringAt(view, mem, src, maxn, k) {
      if StringAt(view, mem, src, maxn, k) {
        WholePart(view, src, from, part, k);
      }
    }
  }

  lemma WholePart(view: View, src: nat, from: nat, part: nat, k: nat)
    requires Lawful(view) && src <= from <= src + k && 0 < part <= PGSIZE - from % PGSIZE
    requires Readable(view, src, src + k + 1)
    ensures Passes(view, from, from + part)
  {
    assert ReadableByte(view, from) && from / PGSIZE == (from + part - 1) / PGSIZE;
    match view
    case None =>
    case Some(l) =>
      forall x: int | from <= x < from + part ensures USERBASE <= x < USERTOP && Allowed(l, x, false) {
        assert x / PGSIZE == from / PGSIZE;
        ReadPageByPage(l, from, x);
      }
      assert from + part - 1 < USERTOP;
  }
}
