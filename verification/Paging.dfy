/** Words of the 32-bit paging structures (kern/mm/mmu.h; section 4.3 of volume
    3A of the Intel Software Developer's Manual) and user page numbers. */
module Paging {
  import opened Wrappers

  const NENTRY := 1024
  const USER_PAGES := 0xB0000      // pages below USERTOP
  const USERBASE_PAGE := 0x200     // first page of the user address space

  const PTE_P := 1
  const PTE_W := 2
  const PTE_U := 4
  const PTE_USER := 7

  type Word = nat
  type Frame = nat

  predicate Present(w: Word) {
    w % 2 == 1
  }

  function FrameOf(w: Word): Frame {
    w / PGSIZE
  }

  /** The user permission bits of a word: w & PTE_USER. */
  function UserBits(w: Word): (bits: nat)
    ensures bits < 8 && (Present(bits) <==> Present(w))
  {
    LowBit(w / 8, w % 8);
    w % 8
  }

  lemma {:induction false} LowBit(q: nat, b: nat)
    ensures (8 * q + b) % 2 == b % 2
  {
    if q > 0 {
      LowBit(q - 1, b);
    }
  }

  /** page2pa(f) | PTE_P | perm for flag bits perm. */
  function PteWord(f: Frame, perm: nat): (w: Word)
    requires perm < 8
    ensures Present(w) && FrameOf(w) == f
    ensures UserBits(w) == if Present(perm) then perm else perm + PTE_P
  {
    var bits := if Present(perm) then perm else perm + PTE_P;
    WordParts(f, bits);
    f * PGSIZE + bits
  }

  lemma WordParts(f: Frame, bits: nat)
    requires bits < 8
    ensures (f * PGSIZE + bits) / PGSIZE == f
    ensures (f * PGSIZE + bits) % 8 == bits
    ensures (f * PGSIZE + bits) % 2 == bits % 2
  {
    PageAndOffset(f, bits);
    LowBits(512 * f, bits);
    LowBit(512 * f, bits);
  }

  lemma LowBits(q: nat, b: nat)
    requires b < 8
    ensures (8 * q + b) % 8 == b
  {
    var w := 8 * q + b;
    assert w == 8 * (w / 8) + w % 8;
    assert 8 * (w / 8 - q) == b - w % 8;
  }

  function PDX(v: nat): nat {
    v / NENTRY
  }

  function PTX(v: nat): nat {
    v % NENTRY
  }

  lemma SplitPage(v: nat, v': nat)
    requires PDX(v) == PDX(v') && PTX(v) == PTX(v')
    ensures v == v'
  {
  }

  /** ROUNDDOWN(start + PTSIZE, PTSIZE), counted in pages. */
  function NextTable(v: nat): (r: nat)
    ensures v < r
    ensures forall u :: v <= u < r ==> PDX(u) == PDX(v)
  {
    (v + NENTRY) / NENTRY * NENTRY
  }
}
