/** The end of the user heap in the kernel: do_brk (kern/process/proc.c) and mm_brk
    (kern/mm/vmm.c). */
module Brk {
  import opened Areas
  import opened Wrappers
  import opened Vmm

  const HEAP_FLAGS := VM_READ + VM_WRITE

  /** Where the heap [start, end) ends after do_brk: it leaves it alone, shrinks it, or
      grows it; grows and shrinks tell whether the areas and the memory for them allow it. */
  function BrkAfter(start: nat, end: nat, request: nat, grows: bool, shrinks: bool): nat {
    var end' := RoundUp(request);
    if request < start || end' == end then end
    else if end' < end then if shrinks && UserAccess(end', end) then end' else end
    else if grows && UserAccess(end, end') then end' else end
  }

  /** The address before x is in an area of the heap's kind. */
  ghost predicate Adjoins(l: seq<Area>, x: nat) {
    x > 0 && FlagsAt(l, x - 1) == Some(HEAP_FLAGS)
  }

  /** No area lies across x. */
  ghost predicate Border(l: seq<Area>, x: nat) {
    At(l, x).Some? ==> At(l, x).value.start == x
  }

  /** Whether there is room to grow: nothing is mapped at the old end, and there is an area
      to extend, or memory for a new one and nothing else in the way. */
  ghost predicate Room(l: seq<Area>, end: nat, end': nat, nomem: bool) {
    At(l, end).None? && (Adjoins(l, end) || (!nomem && Hole(l, end, end')))
  }

  /** An area that holds x - 1 ends at x if nothing is mapped there. */
  lemma EndsBeforeHole(l: seq<Area>, i: nat, x: nat)
    requires Sorted(l) && i < |l| && x > 0 && l[i].Has(x - 1) && At(l, x).None?
    ensures l[i].end == x
  {
    if l[i].Has(x) {
      AtIndex(l, i, x);
    }
  }

  /** What mm_brk does where nothing is mapped at s: the return codes, whether the areas l'
      are sound afterwards, and what they map. */
  ghost predicate MappedCleared(l: seq<Area>, l': seq<Area>, sound: bool, s: nat, e: nat, nomem: bool, r: Status) {
    && !r.Invalid? && (r.NoMem? <==> nomem && !Adjoins(l, s))
    && (r.Panic? <==> !nomem && !Adjoins(l, s) && !Hole(l, s, e))
    && (sound <==> !r.Success? || Hole(l, s, e))
    && (!r.Success? ==> l' == l)
    && (r.Success? && sound ==> MapResult(l, l', s, e, HEAP_FLAGS) && Border(l', e))
  }

  /** What mm_brk does to the areas l. */
  ghost predicate Remapped(l: seq<Area>, l': seq<Area>, sound: bool, s: nat, e: nat, nomem: bool, r: Status, gone: seq<(nat, nat)>) {
    var lost := r.NoMem? && At(l, s).Some? && !Splits(l, s, e);
    && (r.Invalid? <==> !UserAccess(s, e))
    && (r.NoMem? <==> UserAccess(s, e) && nomem && (Splits(l, s, e) || !Adjoins(l, s)))
    && (r.Panic? <==> UserAccess(s, e) && !nomem && !Adjoins(l, s) && At(l, s).None? && !Hole(l, s, e))
    && (sound <==> !r.Success? || At(l, s).Some? || Hole(l, s, e))
    && (!r.Success? && !lost ==> l' == l)
    && (lost ==> UnmapResult(l, l', s, e, gone))
    && (r.Success? && sound ==> MapResult(l, l', s, e, HEAP_FLAGS) && Border(l', e))
  }

  lemma ClearThenMap(l: seq<Area>, l1: seq<Area>, l2: seq<Area>, sound: bool, s: nat, e: nat, nomem: bool, r: Status,
                     gone: seq<(nat, nat)>)
    requires UserAccess(s, e) && !(nomem && Splits(l, s, e)) && MappedCleared(l1, l2, sound, s, e, nomem, r)
    requires Sorted(l1) && if At(l, s).Some? then UnmapResult(l, l1, s, e, gone) else l1 == l
    ensures Remapped(l, l2, sound, s, e, nomem, r, gone)
  {
    AfterUnmap(l, l1, s, e, gone);
  }

  /** Area i, which ends at s, grows to e. */
  ghost function Stretched(l: seq<Area>, i: nat, e: nat): seq<Area>
    requires i < |l|
  {
    l[i := l[i].(end := e)]
  }

  /** Growing an area is right exactly if there is no other area in the way. */
  lemma StretchedSorted(l: seq<Area>, i: nat, s: nat, e: nat)
    requires Sorted(l) && i < |l| && l[i].end == s < e <= USERTOP && Aligned(e)
    ensures Sorted(Stretched(l, i, e)) <==> Hole(l, s, e)
  {
    var l' := Stretched(l, i, e);
    if Hole(l, s, e) {
      forall j | i < j < |l| ensures e <= l[j].start {
        AtIndex(l, j, l[j].start);
        assert At(l, l[j].start).Some?;
      }
    } else {
      var x: int :| s <= x < e && At(l, x).Some?;
      var j := AtSome(l, x);
      InOrder(l, j, i);
      assert i < j && l'[j].start < l'[i].end;
    }
  }

  lemma StretchedMeaning(l: seq<Area>, i: nat, s: nat, e: nat)
    requires Sorted(l) && i < |l| && l[i].end == s < e && Sorted(Stretched(l, i, e)) && Hole(l, s, e) && l[i].flags == HEAP_FLAGS
    ensures MapResult(l, Stretched(l, i, e), s, e, HEAP_FLAGS)
  {
    var l' := Stretched(l, i, e);
    forall x: int ensures FlagsAt(l', x) == if s <= x < e then Some(HEAP_FLAGS) else FlagsAt(l, x) {
      if s <= x < e {
        AtIndex(l', i, x);
      } else if At(l, x).Some? {
        var j := AtSome(l, x);
        AtIndex(l', j, x);
      } else {
        StretchedNone(l, i, s, e, x);
      }
    }
  }

  lemma StretchedNone(l: seq<Area>, i: nat, s: nat, e: nat, x: int)
    requires Sorted(l) && i < |l| && l[i].end == s < e && At(l, x).None? && !(s <= x < e)
    ensures At(Stretched(l, i, e), x).None?
  {
    forall j | 0 <= j < |l| ensures !l[j].Has(x) {
      if l[j].Has(x) {
        AtIndex(l, j, x);
      }
    }
    AtNone(Stretched(l, i, e), x);
  }

  lemma BorderAtEnd(l: seq<Area>, i: nat)
    requires Sorted(l) && i < |l|
    ensures Border(l, l[i].end)
  {
    var x := l[i].end;
    if At(l, x).Some? {
      var j := AtSome(l, x);
      InOrder(l, j, i);
      InOrder(l, i, j);
    }
  }

  class Space {
    const mm: Mm
    var brkStart: nat
    var brk: nat

    ghost predicate Valid()
      reads this, mm, mm.list
    {
      mm.Valid() && Aligned(brk) && brk < WORD
    }

    /** As load_icode leaves it. */
    constructor (mm: Mm, start: nat)
      requires mm.Valid() && Aligned(start) && start < WORD
      ensures Valid() && this.mm == mm && brkStart == brk == start
    {
      this.mm, brkStart, brk := mm, start, start;
    }

    /** mm_unmap of whole pages. */
    method Unmap(s: nat, e: nat, nomem: bool) returns (r: Status, gone: seq<(nat, nat)>)
      requires mm.Valid() && Aligned(s) && Aligned(e) && s < e < WORD
      modifies mm`list, mm`cache, mm`mapCount, mm`areas, mm.list
      ensures mm.Valid() && r in {Success, Invalid, NoMem} && forall v :: v in mm.list ==> v in old(mm.list) || fresh(v)
      ensures r.Success? <==> UserAccess(s, e) && !(nomem && Splits(old(mm.areas), s, e))
      ensures r.NoMem? <==> UserAccess(s, e) && nomem && Splits(old(mm.areas), s, e)
      ensures !r.Success? || At(old(mm.areas), s).None? ==> mm.areas == old(mm.areas)
      ensures r.Success? && At(old(mm.areas), s).Some? ==> UnmapResult(old(mm.areas), mm.areas, s, e, gone)
      ensures r.Success? ==> (UnmapResult(old(mm.areas), mm.areas, s, e, gone) <==> At(old(mm.areas), s).Some? || Hole(old(mm.areas), s, e))
      ensures r.Success? ==> At(mm.areas, s).None?
    {
      RoundAligned(s);
      RoundAligned(e);
      r, gone := mm.MmUnmap(s, e - s, nomem);
      if r == Success && At(old(mm.areas), s).Some? {
        assert FlagsAt(mm.areas, s) == None;
      }
    }

    /** mm_brk: what is mapped in the range goes first, if the range starts in an area. Then
        an area that ends there is extended without a look at what follows, or a new one is
        made; without memory for it the range stays unmapped. */
    method MmBrk(s: nat, e: nat, nomem: bool) returns (r: Status, gone: seq<(nat, nat)>)
      requires mm.Valid() && Aligned(s) && Aligned(e) && s < e < WORD
      modifies mm`list, mm`cache, mm`mapCount, mm`areas, mm.list
      ensures Remapped(old(mm.areas), mm.areas, mm.Valid(), s, e, nomem, r, gone)
    {
      gone := [];
      if !UserAccess(s, e) {
        return Invalid, gone;
      }
      r, gone := Unmap(s, e, nomem);
      if r != Success {
        return;
      }
      ghost var l, l1 := old(mm.areas), mm.areas;
      var vma: Vma?;
      ghost var i;
      vma, i := mm.FindVma(s - 1);
      assert vma != null ==> vma in old(mm.list) || fresh(vma);
      r := MapCleared(vma, i, s, e, nomem);
      ClearThenMap(l, l1, mm.areas, mm.Valid(), s, e, nomem, r, gone);
    }

    /** The rest of mm_brk; vma is the area that holds s - 1. */
    method MapCleared(vma: Vma?, ghost i: nat, s: nat, e: nat, nomem: bool) returns (r: Status)
      requires mm.Valid() && Aligned(s) && Aligned(e) && UserAccess(s, e) && At(mm.areas, s).None?
      requires vma == null <==> At(mm.areas, s - 1).None?
      requires vma != null ==> i < |mm.list| && mm.list[i] == vma && mm.areas[i].Has(s - 1) && At(mm.areas, s - 1) == Some(mm.areas[i])
      modifies mm`list, mm`mapCount, mm`areas, if vma == null then {} else {vma}
      ensures MappedCleared(old(mm.areas), mm.areas, mm.Valid(), s, e, nomem, r)
    {
      if vma != null {
        EndsBeforeHole(mm.areas, i, s);
      }
      if vma != null && vma.end == s && vma.flags == HEAP_FLAGS {
        Stretch(vma, i, s, e);
        return Success;
      }
      if nomem {
        return NoMem;
      }
      r := Insert(s, e);
    }

    method Stretch(vma: Vma, ghost i: nat, s: nat, e: nat)
      requires mm.Valid() && i < |mm.list| && mm.list[i] == vma && vma.end == s && vma.flags == HEAP_FLAGS
      requires Aligned(e) && s < e <= USERTOP
      modifies mm`areas, vma
      ensures mm.Valid() <==> Hole(old(mm.areas), s, e)
      ensures mm.Valid() ==> MapResult(old(mm.areas), mm.areas, s, e, HEAP_FLAGS) && Border(mm.areas, e)
    {
      mm.NoneTwice();
      StretchedSorted(mm.areas, i, s, e);
      vma.end := e;
      mm.areas := Stretched(mm.areas, i, e);
      if Hole(old(mm.areas), s, e) {
        StretchedMeaning(old(mm.areas), i, s, e);
        BorderAtEnd(mm.areas, i);
      }
    }

    method Insert(s: nat, e: nat) returns (r: Status)
      requires mm.Valid() && Aligned(s) && Aligned(e) && UserAccess(s, e)
      modifies mm`list, mm`mapCount, mm`areas
      ensures r == if Hole(old(mm.areas), s, e) then Success else Panic
      ensures mm.Valid() && (r.Panic? ==> mm.areas == old(mm.areas))
      ensures r.Success? ==> MapResult(old(mm.areas), mm.areas, s, e, HEAP_FLAGS) && Border(mm.areas, e)
    {
      ghost var a := Area(s, e, HEAP_FLAGS);
      ApartMeansHole(mm.areas, a);
      var nvma := new Vma(s, e, HEAP_FLAGS);
      var ok;
      ghost var p;
      ok, p := mm.InsertVma(nvma);
      if !ok {
        return Panic;
      }
      forall x: int ensures FlagsAt(mm.areas, x) == if s <= x < e then Some(HEAP_FLAGS) else FlagsAt(old(mm.areas), x) {
        InsertedMeaning(old(mm.areas), a, p, x);
      }
      assert mm.areas[p] == a;
      BorderAtEnd(mm.areas, p);
      r := Success;
    }

    /** do_brk. The new end is exact; what is mapped follows it, except that a heap that
        grows over a hole into another area leaves overlapping areas behind, and a heap
        that shrinks to an address in a hole keeps its areas. */
    method DoBrk(request: nat, nomem: bool) returns (r: Status, gone: seq<(nat, nat)>)
      requires Valid() && request < WORD
      modifies `brk, mm`list, mm`cache, mm`mapCount, mm`areas, mm.list
      ensures r in {Success, Panic}
      ensures var l, end, end' := old(mm.areas), old(brk), RoundUp(request);
              && brk == BrkAfter(brkStart, end, request, Room(l, end, end', nomem), !(nomem && Splits(l, end', end)))
              && (r.Panic? <==> brkStart <= request && end < end' && UserAccess(end, end') && !nomem
                                && At(l, end).None? && !Adjoins(l, end) && !Hole(l, end, end'))
              && (mm.Valid() <==> brk <= end || Hole(l, end, brk)) && (mm.Valid() ==> Valid())
              && (brk == end ==> mm.areas == l)
              && (brk > end && mm.Valid() ==> MapResult(l, mm.areas, end, brk, HEAP_FLAGS))
              && (brk < end ==> (UnmapResult(l, mm.areas, brk, end, gone) <==> At(l, brk).Some? || Hole(l, brk, end)))
              && (brk < end && At(l, brk).None? ==> mm.areas == l)
              && (mm.Valid() && (brk != end || Border(l, end)) ==> Border(mm.areas, brk))
    {
      gone := [];
      if request < brkStart {
        return Success, gone;
      }
      var newbrk, oldbrk := RoundUp(request), brk;
      if newbrk == oldbrk {
        return Success, gone;
      }
      if newbrk < oldbrk {
        r, gone := Shrink(newbrk, nomem);
        return Success, gone;
      }
      r := Grow(newbrk, nomem);
      if !r.Panic? {
        r := Success;
      }
    }

    method Shrink(newbrk: nat, nomem: bool) returns (r: Status, gone: seq<(nat, nat)>)
      requires Valid() && Aligned(newbrk) && newbrk < brk
      modifies `brk, mm`list, mm`cache, mm`mapCount, mm`areas, mm.list
      ensures var l, end := old(mm.areas), old(brk);
              && Valid() && brk == (if UserAccess(newbrk, end) && !(nomem && Splits(l, newbrk, end)) then newbrk else end)
              && (brk == end ==> mm.areas == l)
              && (brk < end ==> (UnmapResult(l, mm.areas, brk, end, gone) <==> At(l, brk).Some? || Hole(l, brk, end)))
              && (brk < end ==> At(mm.areas, brk).None?)
              && (brk < end && At(l, brk).None? ==> mm.areas == l)
    {
      r, gone := Unmap(newbrk, brk, nomem);
      if r != Success {
        return;
      }
      brk := newbrk;
    }

    method Grow(newbrk: nat, nomem: bool) returns (r: Status)
      requires Valid() && Aligned(newbrk) && brk < newbrk < WORD
      modifies `brk, mm`list, mm`cache, mm`mapCount, mm`areas, mm.list
      ensures var l, end := old(mm.areas), old(brk);
              && brk == (if UserAccess(end, newbrk) && Room(l, end, newbrk, nomem) then newbrk else end)
              && (r.Panic? <==> UserAccess(end, newbrk) && !nomem && At(l, end).None? && !Adjoins(l, end) && !Hole(l, end, newbrk))
              && (mm.Valid() <==> brk == end || Hole(l, end, brk)) && (mm.Valid() ==> Valid())
              && (brk == end ==> mm.areas == l)
              && (brk > end && mm.Valid() ==> MapResult(l, mm.areas, end, brk, HEAP_FLAGS) && Border(mm.areas, brk))
    {
      var vma: Vma?;
      ghost var i;
      vma, i := mm.FindVma(brk);
      if vma != null && !((newbrk + PGSIZE) % WORD <= vma.start) {
        return NoMem;
      }
      assert vma != null ==> !UserAccess(brk, newbrk);       // the new end is on the last page of all
      if vma == null {
        SplitsNothing(mm.areas, brk, newbrk);
      }
      var gone;
      r, gone := MmBrk(brk, newbrk, nomem);
      if r == Success {
        brk := newbrk;
      }
    }
  }

  lemma SplitsNothing(l: seq<Area>, s: nat, e: nat)
    requires At(l, s).None?
    ensures !Splits(l, s, e)
  {
  }

  /** Either way nothing is mapped at the start of the range afterwards. */
  lemma AfterUnmap(l: seq<Area>, l1: seq<Area>, s: nat, e: nat, gone: seq<(nat, nat)>)
    requires Sorted(l1) && s < e && if At(l, s).Some? then UnmapResult(l, l1, s, e, gone) else l1 == l
    ensures At(l1, s).None? && (s > 0 ==> FlagsAt(l1, s - 1) == FlagsAt(l, s - 1))
    ensures Hole(l1, s, e) <==> At(l, s).Some? || Hole(l, s, e)
    ensures forall x: int :: !(s <= x < e) ==> FlagsAt(l1, x) == FlagsAt(l, x)
  {
    if At(l, s).Some? {
      forall x: int ensures s <= x < e ==> At(l1, x).None? {
        assert s <= x < e ==> FlagsAt(l1, x) == None;
      }
    }
  }

  /** A heap of one page, a hole and another area: two more pages make them overlap. */
  lemma HeapGrowsOverArea()
    ensures var l := [Area(0x30_0000, 0x30_1000, HEAP_FLAGS), Area(0x30_2000, 0x30_3000, VM_READ)];
            var end, end' := 0x30_1000, 0x30_3000;
            && Sorted(l) && Border(l, end) && UserAccess(end, end') && Room(l, end, end', false) && !Hole(l, end, end')
            && BrkAfter(0x30_0000, end, end', true, true) == end' && !Sorted(Stretched(l, 0, end'))
  {
    var l := [Area(0x30_0000, 0x30_1000, HEAP_FLAGS), Area(0x30_2000, 0x30_3000, VM_READ)];
    AtIndex(l, 0, 0x30_0fff);
    AtIndex(l, 1, 0x30_2000);
    assert At(l, 0x30_2000).Some?;
    AtNone(l, 0x30_1000);
    assert Aligned(0x30_1000) && Aligned(0x30_3000);
    StretchedSorted(l, 0, 0x30_1000, 0x30_3000);
    RoundAligned(0x30_3000);
  }

  /** Where no area lies across the end of the heap, shrinking does not split one. */
  lemma NothingSplits(l: seq<Area>, s: nat, e: nat)
    requires Sorted(l) && Border(l, e) && s < e
    ensures !Splits(l, s, e)
  {
    if Splits(l, s, e) {
      var i := AtSome(l, s);
      AtIndex(l, i, e);
    }
  }
}
