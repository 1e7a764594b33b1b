/** Loading one segment of an ELF program (the loop over program headers in
    load_icode, kern/process/proc.c). */
module Elf {
  import opened Areas
  import opened Wrappers
  import opened Vmm

  type Frame = f: seq<byte> | |f| == PGSIZE witness seq(PGSIZE, i => 0)

  type Memory = map<nat, Frame>           // page address to contents

  /** How the loop over program headers goes on or ends; Overrun is a memset beyond its
      page, Failed an assertion of mm_map. */
  datatype Ret = Ok | InvalidElf | BadRange | Failed | NoPage | ReadError | Overrun

  /** A program header of type PT_LOAD. */
  datatype Header = Header(va: nat, offset: nat, filesz: nat, memsz: nat)

  /** The page an address is on. */
  function PageOf(a: nat): (b: nat)
    ensures b % PGSIZE == 0 && b <= a < b + PGSIZE
  {
    a - a % PGSIZE
  }

  ghost predicate Mapped(m: Memory, a: nat) {
    PageOf(a) in m
  }

  ghost function ByteAt(m: Memory, a: nat): byte
    requires Mapped(m, a)
  {
    m[PageOf(a)][a % PGSIZE]
  }

  lemma InPage(b: nat, a: nat)
    requires b % PGSIZE == 0 && b <= a < b + PGSIZE
    ensures PageOf(a) == b && a % PGSIZE == a - b
  {
  }

  /** What address a of the segment must hold: the file's byte, or zero behind it. */
  ghost function Wanted(h: Header, file: seq<byte>, a: nat): byte {
    if h.va <= a < h.va + h.filesz && h.offset + (a - h.va) < |file| then file[h.offset + (a - h.va)] else 0
  }

  /** The segment is loaded from its start up to `start`, on the pages below la; the
      other pages are as they were. */
  ghost predicate Loaded(m: Memory, m': Memory, h: Header, file: seq<byte>, start: nat, la: nat) {
    && la % PGSIZE == 0
    && (forall a: nat :: h.va <= a < start ==> Mapped(m', a) && ByteAt(m', a) == Wanted(h, file, a))
    && (forall b: nat :: PageOf(h.va) <= b < la && b % PGSIZE == 0 ==> b in m')
    && (forall b: nat :: !(PageOf(h.va) <= b < la && b % PGSIZE == 0) ==> (b in m' <==> b in m))
    && (forall b: nat :: !(PageOf(h.va) <= b < la && b % PGSIZE == 0) && b in m ==> b in m' && m'[b] == m[b])
  }

  /** Bytes [start, start + |data|) of page b are the next ones of the segment. */
  ghost predicate NextBytes(h: Header, file: seq<byte>, b: nat, start: nat, data: seq<byte>) {
    && b % PGSIZE == 0 && h.va <= start && b <= start && start + |data| <= b + PGSIZE
    && forall j :: 0 <= j < |data| ==> data[j] == Wanted(h, file, start + j)
  }

  /** A new page takes the next bytes. */
  lemma LoadNewPage(m: Memory, m1: Memory, h: Header, file: seq<byte>, start: nat, la: nat, f: Frame, data: seq<byte>)
    requires Loaded(m, m1, h, file, start, la) && NextBytes(h, file, la, start, data) && PageOf(h.va) <= la
    requires start == h.va || start == la
    ensures Loaded(m, m1[la := Put(f, start - la, data)], h, file, start + |data|, la + PGSIZE)
  {
    var m' := m1[la := Put(f, start - la, data)];
    forall a: nat | h.va <= a < start + |data| ensures Mapped(m', a) && ByteAt(m', a) == Wanted(h, file, a) {
      if a >= start {
        InPage(la, a);
        assert data[a - start] == Wanted(h, file, a);
      } else {
        assert Mapped(m1, a) && ByteAt(m1, a) == Wanted(h, file, a);
        assert PageOf(a) < la;
      }
    }
  }

  /** The last page takes more bytes behind those it has. */
  lemma LoadSamePage(m: Memory, m1: Memory, h: Header, file: seq<byte>, start: nat, la: nat, data: seq<byte>)
    requires Loaded(m, m1, h, file, start, la + PGSIZE) && NextBytes(h, file, la, start, data) && PageOf(h.va) <= la
    ensures la in m1 && Loaded(m, m1[la := Put(m1[la], start - la, data)], h, file, start + |data|, la + PGSIZE)
  {
    var m' := m1[la := Put(m1[la], start - la, data)];
    forall a: nat | h.va <= a < start + |data| ensures Mapped(m', a) && ByteAt(m', a) == Wanted(h, file, a) {
      if a >= start {
        InPage(la, a);
        assert data[a - start] == Wanted(h, file, a);
      } else {
        assert Mapped(m1, a) && ByteAt(m1, a) == Wanted(h, file, a);
        if PageOf(a) == la {
          InPage(la, a);
        }
      }
    }
  }

  /** Where the two cursors stand: at the start of the segment, on a page boundary,
      or at the end of what is loaded, within the page before la. */
  ghost predicate Cursors(h: Header, start: nat, la: nat, end: nat) {
    && h.va <= start <= end && PageOf(h.va) <= la
    && ((start == h.va && la == PageOf(h.va)) || start == la || (start == end && la - PGSIZE < start < la && PageOf(h.va) < la))
  }

  /** How many bytes of [start, end) go on page la. */
  function Share(start: nat, la: nat, end: nat): nat
    requires la <= start < la + PGSIZE && start < end
  {
    var size := PGSIZE - (start - la);
    if end < la + PGSIZE then size - (la + PGSIZE - end) else size
  }

  lemma Advance(h: Header, start: nat, la: nat, end: nat)
    requires Cursors(h, start, la, end) && start < end
    ensures la <= start < la + PGSIZE && (start == h.va || start == la)
    ensures var size := Share(start, la, end);
            size > 0 && start + size <= end && start + size <= la + PGSIZE && Cursors(h, start + size, la + PGSIZE, end)
  {
  }

  /** The file's bytes for page la are the next ones. */
  lemma FileBytes(h: Header, file: seq<byte>, start: nat, la: nat, offset: nat, size: nat)
    requires h.va <= start && start + size <= h.va + h.filesz && la % PGSIZE == 0 && la <= start && start + size <= la + PGSIZE
    requires offset == h.offset + (start - h.va) && offset + size <= |file|
    ensures NextBytes(h, file, la, start, file[offset..offset + size])
  {
  }

  /** All pages of the segment below la could be had. */
  ghost predicate Granted(h: Header, frames: nat -> Option<Frame>, la: nat) {
    forall b: nat :: PageOf(h.va) <= b < la && b % PGSIZE == 0 ==> frames(b).Some?
  }

  lemma GrantedMore(h: Header, frames: nat -> Option<Frame>, la: nat)
    requires Granted(h, frames, la) && la % PGSIZE == 0 && frames(la).Some?
    ensures Granted(h, frames, la + PGSIZE)
  {
  }

  lemma NotGranted(h: Header, frames: nat -> Option<Frame>, la: nat, end: nat)
    requires PageOf(h.va) <= la < end && la % PGSIZE == 0 && frames(la).None?
    ensures !Granted(h, frames, PagesEnd(end))
  {
  }

  /** The first address behind the last page of addresses below a. */
  function PagesEnd(a: nat): nat {
    (a + PGSIZE - 1) / PGSIZE * PGSIZE
  }

  lemma PagesEndIs(a: nat, la: nat)
    requires la % PGSIZE == 0 && la - PGSIZE < a <= la
    ensures PagesEnd(a) == la
  {
  }

  // ---------- which headers mm_map accepts ----------

  ghost predicate Accepted(h: Header, areas: seq<Area>) {
    var s, e := RoundDown(h.va), RoundUp((h.va + h.memsz) % WORD);
    UserAccess(s, e) && Hole(areas, s, e)
  }

  /** The end of the segment does not wrap around into its first page. */
  predicate EndsInOrder(h: Header) {
    h.memsz <= WORD - h.va % PGSIZE
  }

  /** An accepted segment lies in user space, on exactly the pages that are mapped for
      it, or its end wraps around into its first page. */
  lemma AcceptedRange(h: Header)
    requires h.va < WORD && h.memsz < WORD && UserAccess(RoundDown(h.va), RoundUp((h.va + h.memsz) % WORD))
    ensures EndsInOrder(h) ==> h.va + h.memsz <= PagesEnd(h.va + h.memsz) == RoundUp((h.va + h.memsz) % WORD) <= USERTOP
    ensures !EndsInOrder(h) ==> PageOf(h.va) < h.va + h.memsz - WORD < h.va
  {
    var sum := h.va + h.memsz;
    WrapsOnce(sum);
    if sum < WORD {
      RoundUpIs(sum);
    } else if EndsInOrder(h) {
      RoundUpBelow(sum - WORD, PageOf(h.va));
      assert false;
    }
  }

  lemma WrapsOnce(a: nat)
    requires a < 2 * WORD
    ensures a % WORD == if a < WORD then a else a - WORD
  {
  }

  lemma RoundUpIs(a: nat)
    requires a < WORD
    ensures if a + PGSIZE <= WORD then a <= PagesEnd(a) == RoundUp(a) else RoundUp(a) == 0
  {
    var b := a + PGSIZE - 1;
    assert b == PGSIZE * (b / PGSIZE) + b % PGSIZE;
    if b >= WORD {
      assert b % WORD == b - WORD < PGSIZE;
    }
  }

  lemma RoundUpBelow(a: nat, b: nat)
    requires a <= b < WORD && b % PGSIZE == 0
    ensures RoundUp(a) <= b
  {
    var r := RoundUp(a);
    assert r == PGSIZE * (r / PGSIZE) && b == PGSIZE * (b / PGSIZE);
  }

  /** Such a header is accepted: its one page is mapped for what claims to be 4 GB. */
  lemma WrappedHeaderIsAccepted()
    ensures var h := Header(0x80_0800, 0, 0x100, 0xffff_f900);
            0 < h.filesz <= h.memsz && Accepted(h, []) && !EndsInOrder(h)
  {
  }

  /** Skipping a segment without bytes in the file is right exactly if its range, rounded
      to pages, is empty. */
  lemma SkippedSegment(m: Memory, h: Header, file: seq<byte>)
    requires h.filesz == 0 && PageOf(h.va) !in m
    ensures LoadedAll(m, m, h, file) <==> PagesEnd(h.va + h.memsz) == PageOf(h.va)
  {
    assert !Mapped(m, h.va);
  }

  /** One page of zeros that is not loaded. */
  lemma ZerosAreNotLoaded()
    ensures var h := Header(0x80_0000, 0, 0, 0x1000); Accepted(h, []) && !LoadedAll(map[], map[], h, [])
  {
    SkippedSegment(map[], Header(0x80_0000, 0, 0, 0x1000), []);
  }

  /** The memory of a process has addresses of 32 bits. */
  ghost predicate Addressable(m: Memory) {
    forall b :: b in m ==> b < WORD
  }

  /** When mapping a segment fails, and that nothing changes then. */
  ghost predicate Mapping(ret: Ret, h: Header, nomem: bool, areas: seq<Area>, areas': seq<Area>, m: Memory, m': Memory) {
    var s, e := RoundDown(h.va), RoundUp((h.va + h.memsz) % WORD);
    && (ret == BadRange <==> !UserAccess(s, e) || At(areas, s).Some?)
    && (ret == Failed <==> ret != BadRange && !nomem && !Accepted(h, areas))
    && (ret != BadRange && nomem ==> ret == NoPage)
    && (ret == BadRange || ret == Failed || nomem ==> m' == m && areas' == areas)
  }

  /** What becomes of a segment that is mapped. */
  ghost predicate Loading(ret: Ret, h: Header, file: seq<byte>, flags: nat, frames: nat -> Option<Frame>,
                          areas: seq<Area>, areas': seq<Area>, m: Memory, m': Memory) {
    && MapResult(areas, areas', RoundDown(h.va), RoundUp((h.va + h.memsz) % WORD), flags)
    && (ret == Ok && LoadedAll(m, m', h, file) <==>
        EndsInOrder(h) && h.offset + h.filesz <= |file| && Granted(h, frames, PagesEnd(h.va + h.memsz)))
    && (EndsInOrder(h) ==> Outcome(ret, h, file, frames))
    && (!EndsInOrder(h) ==> WrappedOutcome(ret, m, m', h, file, frames))
  }

  class Loader {
    const mm: Mm
    var mem: Memory

    constructor (mm: Mm)
      ensures this.mm == mm && mem == map[]
    {
      this.mm, mem := mm, map[];
    }

    /** The segment loop for one header; frames says what the page allocator returns for
        a page, in whatever state it is. Without bytes in the file nothing is loaded,
        whatever the size in memory. A segment that mm_map accepts is loaded exactly if
        its end does not wrap, the file has its bytes and all its pages can be had. */
    method LoadSegment(h: Header, file: seq<byte>, flags: nat, nomem: bool, frames: nat -> Option<Frame>) returns (ret: Ret)
      requires mm.Valid() && Addressable(mem) && h.va < WORD && h.filesz < WORD && h.memsz < WORD
      modifies `mem, mm`list, mm`cache, mm`mapCount, mm`areas
      ensures mm.Valid()
      ensures ret == InvalidElf <==> h.filesz > h.memsz
      ensures ret == InvalidElf || h.filesz == 0 ==> mem == old(mem) && mm.areas == old(mm.areas)
      ensures h.filesz == 0 ==> ret == Ok
      ensures 0 < h.filesz <= h.memsz ==> Mapping(ret, h, nomem, old(mm.areas), mm.areas, old(mem), mem)
      ensures 0 < h.filesz <= h.memsz && !nomem && Accepted(h, old(mm.areas)) ==>
                Loading(ret, h, file, flags, frames, old(mm.areas), mm.areas, old(mem), mem)
    {
      if h.filesz > h.memsz {
        return InvalidElf;
      }
      if h.filesz == 0 {
        return Ok;
      }
      ret := MapThenLoad(h, file, flags, nomem, frames);
    }

    method MapThenLoad(h: Header, file: seq<byte>, flags: nat, nomem: bool, frames: nat -> Option<Frame>) returns (ret: Ret)
      requires mm.Valid() && Addressable(mem) && 0 < h.filesz <= h.memsz < WORD && h.va < WORD
      modifies `mem, mm`list, mm`cache, mm`mapCount, mm`areas
      ensures mm.Valid() && ret != InvalidElf && Mapping(ret, h, nomem, old(mm.areas), mm.areas, old(mem), mem)
      ensures !nomem && Accepted(h, old(mm.areas)) ==>
                Loading(ret, h, file, flags, frames, old(mm.areas), mm.areas, old(mem), mem)
    {
      var status := mm.MmMap(h.va, h.memsz, flags, nomem);
      if status != Success {
        return if status == Invalid then BadRange else if status == NoMem then NoPage else Failed;
      }
      ret := LoadMapped(h, file, frames);
    }

    /** The rest of the loop's body. */
    method LoadMapped(h: Header, file: seq<byte>, frames: nat -> Option<Frame>) returns (ret: Ret)
      requires 0 < h.filesz <= h.memsz && h.va < WORD && h.memsz < WORD && Addressable(mem)
      requires UserAccess(RoundDown(h.va), RoundUp((h.va + h.memsz) % WORD))
      modifies `mem
      ensures ret in {Ok, NoPage, ReadError, Overrun}
      ensures ret == Ok && LoadedAll(old(mem), mem, h, file) <==>
              EndsInOrder(h) && h.offset + h.filesz <= |file| && Granted(h, frames, PagesEnd(h.va + h.memsz))
      ensures EndsInOrder(h) ==> Outcome(ret, h, file, frames)
      ensures !EndsInOrder(h) ==> WrappedOutcome(ret, old(mem), mem, h, file, frames)
    {
      AcceptedRange(h);
      var start, la;
      ret, start, la := CopyFromFile(h, file, frames);
      if ret == Ok {
        if h.va + h.filesz <= WORD - PGSIZE {
          CursorsAtEnd(h, start, la);
        }
        ret := ClearRest(h, file, frames, start, la, old(mem));
      } else if Granted(h, frames, PagesEnd(h.va + h.memsz)) {
        GrantedBefore(h, frames, h.va + h.filesz, h.va + h.memsz);
      }
      if !EndsInOrder(h) {
        WrappedIsNotLoaded(old(mem), mem, h, file);
      }
    }

    /** The first loop: the bytes of the file. When their end wraps, there are none to
        copy; when it lies on the last page of all, the loop goes round the address space
        until the file or the memory is used up. */
    method CopyFromFile(h: Header, file: seq<byte>, frames: nat -> Option<Frame>) returns (ret: Ret, start: nat, la: nat)
      requires 0 < h.filesz <= h.memsz < WORD && h.va < WORD && Addressable(mem)
      modifies `mem
      ensures ret in {Ok, NoPage, ReadError} && Addressable(mem)
      ensures h.va + h.filesz >= WORD ==> ret == Ok && mem == old(mem) && start == h.va && la == PageOf(h.va)
      ensures WORD - PGSIZE < h.va + h.filesz < WORD ==> ret != Ok
      ensures h.va + h.filesz <= WORD - PGSIZE && ret == Ok ==>
                && h.offset + h.filesz <= |file| && start == h.va + h.filesz && Cursors(h, start, la, start) && la < WORD
                && Loaded(old(mem), mem, h, file, start, la) && Granted(h, frames, la)
      ensures h.va + h.filesz <= WORD - PGSIZE && ret == ReadError ==> h.offset + h.filesz > |file|
      ensures h.va + h.filesz <= WORD - PGSIZE && ret == NoPage ==> !Granted(h, frames, PagesEnd(h.va + h.filesz))
    {
      start, la := h.va, PageOf(h.va);
      var offset, end := h.offset, (h.va + h.filesz) % WORD;
      while start < end
        invariant Addressable(mem) && (h.va + h.filesz >= WORD ==> start == h.va && la == PageOf(h.va) && mem == old(mem))
        invariant h.va + h.filesz < WORD ==> InCopy(h, file, frames, old(mem), mem, start, la, end, offset)
        invariant WORD - PGSIZE < h.va + h.filesz < WORD ==> start < end
        decreases |file| - offset
      {
        var done;
        done, ret, start, la, offset := CopyPage(h, file, frames, start, la, end, offset, old(mem));
        if done {
          return;
        }
      }
      ret := Ok;
    }

    /** The body of that loop. */
    method CopyPage(h: Header, file: seq<byte>, frames: nat -> Option<Frame>, start0: nat, la0: nat, end: nat, offset0: nat, ghost m: Memory)
      returns (done: bool, ret: Ret, start: nat, la: nat, offset: nat)
      requires start0 < end == h.va + h.filesz < WORD && h.filesz <= h.memsz && Addressable(mem)
      requires InCopy(h, file, frames, m, mem, start0, la0, end, offset0)
      modifies `mem
      ensures Addressable(mem) && (done ==> ret in {NoPage, ReadError}) && (!done ==> offset0 < offset <= |file|)
      ensures !done ==> InCopy(h, file, frames, m, mem, start, la, end, offset) && (end > WORD - PGSIZE ==> start < end)
      ensures done && end <= WORD - PGSIZE && ret == ReadError ==> h.offset + h.filesz > |file|
      ensures done && end <= WORD - PGSIZE && ret == NoPage ==> !Granted(h, frames, PagesEnd(end))
    {
      done, ret, start, la, offset := true, NoPage, start0, la0, offset0;
      NextPage(h, file, frames, m, mem, start, la, end, offset);
      var page := frames(la);
      if page.None? {
        return;
      }
      var size := PieceSize(start, la, end);
      if offset + size > |file| {
        ret := ReadError;
        return;
      }
      var mem' := mem[la := Put(page.value, start - la, file[offset..offset + size])];
      done, start, la, offset := false, (start + size) % WORD, (la + PGSIZE) % WORD, offset + size;
      PageCopied(h, file, frames, m, mem, start0, la0, end, offset0, page.value, mem', size);
      mem := mem';
    }

    /** The rest of the last page and the pages behind it. */
    method ClearRest(h: Header, file: seq<byte>, frames: nat -> Option<Frame>, start0: nat, la0: nat, ghost m: Memory) returns (ret: Ret)
      requires 0 < h.filesz <= h.memsz && h.va < WORD && la0 < WORD && Addressable(mem)
      requires if h.va + h.filesz >= WORD then (h.va + h.memsz) % WORD <= start0 && la0 <= start0
               else
                 && start0 == h.va + h.filesz && Cursors(h, start0, la0, start0) && Loaded(m, mem, h, file, start0, la0)
                 && Granted(h, frames, la0)
      requires h.va + h.memsz + PGSIZE <= WORD || (h.va + h.memsz) % WORD < start0
      modifies `mem
      ensures ret in {Ok, NoPage, Overrun} && Addressable(mem)
      ensures h.va + h.memsz + PGSIZE <= WORD ==> ret != Overrun
      ensures h.va + h.memsz + PGSIZE <= WORD && ret == Ok ==> LoadedAll(m, mem, h, file) && Granted(h, frames, PagesEnd(h.va + h.memsz))
      ensures h.va + h.memsz + PGSIZE <= WORD && ret == NoPage ==> !Granted(h, frames, PagesEnd(h.va + h.memsz))
      ensures (h.va + h.memsz) % WORD < start0 ==> ret == (if start0 < la0 then Overrun else Ok) && mem == old(mem)
    {
      var start: nat, la: nat, end: nat := start0, la0, (h.va + h.memsz) % WORD;
      assert h.va + h.memsz + PGSIZE <= WORD ==> end == h.va + h.memsz;
      if start < la {
        if start == end {
          assert PagesEnd(end) == la by {
            PagesEndIs(end, la);
          }
          return Ok;
        }
        var ok;
        ok, start := ClearTail(h, file, start, la, end, m);
        if !ok {
          return Overrun;
        }
      }
      ret := ClearPages(h, file, frames, start, la, end, m);
    }

    /** The rest of the last page of the file's bytes. An end before them makes the
        number of bytes to clear negative, that is about 4 GB. */
    method ClearTail(h: Header, ghost file: seq<byte>, start0: nat, la: nat, end: nat, ghost m: Memory) returns (ok: bool, start: nat)
      requires h.va + h.filesz == start0 != end && end < WORD && Cursors(h, start0, la, start0) && start0 < la < WORD && h.filesz > 0
      requires Loaded(m, mem, h, file, start0, la) && Addressable(mem)
      modifies `mem
      ensures Addressable(mem) && (ok <==> start0 < end) && (!ok ==> mem == old(mem))
      ensures ok ==> start > h.va && start >= start0 && Cursors(h, start, la, end) && Loaded(m, mem, h, file, start, la)
    {
      var off := start0 + PGSIZE - la;
      var size := TailSize(start0, la, end);
      TailFits(start0, la, end);
      if off + size > PGSIZE {
        return false, start0;
      }
      var zeros := seq(size, i => 0 as byte);
      TailZeros(m, mem, h, file, start0, la, zeros);
      mem := mem[la - PGSIZE := Put(mem[la - PGSIZE], off, zeros)];
      ok, start := true, start0 + size;
      assert (end < la && start == end) || (end >= la && start == la);
    }

    /** The last loop: pages of zeros. */
    method ClearPages(h: Header, ghost file: seq<byte>, frames: nat -> Option<Frame>, start0: nat, la0: nat, end: nat, ghost m: Memory)
      returns (ret: Ret)
      requires Addressable(mem)
      requires start0 <= end ==>
                 && h.va < start0 && h.va + h.filesz <= start0 && Cursors(h, start0, la0, end) && end <= h.va + h.memsz
                 && Loaded(m, mem, h, file, start0, la0) && Granted(h, frames, la0) && end + PGSIZE <= WORD
      modifies `mem
      ensures ret in {Ok, NoPage} && Addressable(mem)
      ensures end < start0 ==> ret == Ok && mem == old(mem)
      ensures start0 <= end && ret == Ok ==> Loaded(m, mem, h, file, end, PagesEnd(end)) && Granted(h, frames, PagesEnd(end))
      ensures ret == NoPage ==> !Granted(h, frames, PagesEnd(end))
    {
      var start: nat, la: nat := start0, la0;
      while start < end
        invariant Addressable(mem) && (end < start0 ==> start == start0 && mem == old(mem))
        invariant start0 <= end ==>
                    && Cursors(h, start, la, end) && start >= start0 && Loaded(m, mem, h, file, start, la)
                    && Granted(h, frames, la)
      {
        var page := frames(la);
        Advance(h, start, la, end);
        if page.None? {
          assert la < PagesEnd(end);
          return NoPage;
        }
        var off, size := start - la, Share(start, la, end);
        var zeros := seq(size, i => 0 as byte);
        LoadNewPage(m, mem, h, file, start, la, page.value, zeros);
        mem := mem[la := Put(page.value, off, zeros)];
        GrantedMore(h, frames, la);
        la, start := la + PGSIZE, start + size;
      }
      if start0 <= end {
        PagesEndIs(end, la);
      }
      ret := Ok;
    }
  }

  /** The bytes that go on page la, as the loop computes their number in 32 bits. */
  function PieceSize(start: nat, la: nat, end: nat): nat
    requires la <= start < la + PGSIZE && start < end && la < WORD
  {
    var next := (la + PGSIZE) % WORD;
    if end < next then PGSIZE - (start - la) - (next - end) else PGSIZE - (start - la)
  }

  /** It is the page's share of the bytes, except on the last page of all, which is
      filled to its end. */
  lemma PieceFits(start: nat, la: nat, end: nat)
    requires la <= start < la + PGSIZE && start < end < WORD && la % PGSIZE == 0
    ensures var size := PieceSize(start, la, end);
            if la + PGSIZE < WORD then size == Share(start, la, end) && start + size < WORD && (la + PGSIZE) % WORD == la + PGSIZE
            else start + size == WORD == la + PGSIZE
  {
  }

  /** The bytes of the file have been copied up to start, from memory m to m1. */
  ghost predicate Copying(h: Header, file: seq<byte>, frames: nat -> Option<Frame>, m: Memory, m1: Memory, start: nat, la: nat, offset: nat) {
    && Cursors(h, start, la, h.va + h.filesz) && offset == h.offset + (start - h.va) && Loaded(m, m1, h, file, start, la)
    && (start > h.va ==> offset <= |file|) && Granted(h, frames, la)
  }

  /** The same, when the copying may go round the address space. */
  ghost predicate InCopy(h: Header, file: seq<byte>, frames: nat -> Option<Frame>, m: Memory, m1: Memory, start: nat, la: nat, end: nat,
                         offset: nat) {
    if end <= WORD - PGSIZE then Copying(h, file, frames, m, m1, start, la, offset) else la == PageOf(start)
  }

  /** The next byte belongs on page la; without that page not all can be had. */
  lemma NextPage(h: Header, file: seq<byte>, frames: nat -> Option<Frame>, m: Memory, m1: Memory, start: nat, la: nat, end: nat, offset: nat)
    requires InCopy(h, file, frames, m, m1, start, la, end, offset) && start < end == h.va + h.filesz < WORD
    ensures la <= start < la + PGSIZE && la % PGSIZE == 0
    ensures var size := PieceSize(start, la, end);
            size > 0 && (end <= WORD - PGSIZE && offset + size > |file| ==> h.offset + h.filesz > |file|)
    ensures end <= WORD - PGSIZE && frames(la).None? ==> !Granted(h, frames, PagesEnd(end))
  {
    if end <= WORD - PGSIZE {
      Advance(h, start, la, end);
      if frames(la).None? {
        NotGranted(h, frames, la, end);
      }
    }
    PieceFits(start, la, end);
  }

  lemma PageCopied(h: Header, file: seq<byte>, frames: nat -> Option<Frame>, m: Memory, m1: Memory, start: nat, la: nat, end: nat, offset: nat,
                   page: Frame, m2: Memory, size: nat)
    requires InCopy(h, file, frames, m, m1, start, la, end, offset) && start < end == h.va + h.filesz < WORD && frames(la).Some?
    requires la <= start < la + PGSIZE && la % PGSIZE == 0 && size == PieceSize(start, la, end) && offset + size <= |file|
    requires m2 == m1[la := Put(page, start - la, file[offset..offset + size])]
    ensures var start', la' := (start + size) % WORD, (la + PGSIZE) % WORD;
            InCopy(h, file, frames, m, m2, start', la', end, offset + size) && (end > WORD - PGSIZE ==> start' < end)
  {
    if end <= WORD - PGSIZE {
      assert size == Share(start, la, end) && (start + size) % WORD == start + size && (la + PGSIZE) % WORD == la + PGSIZE by {
        PieceFits(start, la, end);
      }
      CopyMore(h, file, frames, m, m1, start, la, offset, page, m2, size, start + size, la + PGSIZE);
    } else {
      GoesRound(start, la, end, size);
    }
  }

  /** Copying up to the last page of all never comes to an end. */
  lemma GoesRound(start: nat, la: nat, end: nat, size: nat)
    requires la <= start < la + PGSIZE && la % PGSIZE == 0 && start < end < WORD < end + PGSIZE && size == PieceSize(start, la, end)
    ensures (la + PGSIZE) % WORD == (start + size) % WORD < end && PageOf((start + size) % WORD) == (start + size) % WORD
  {
    PieceFits(start, la, end);
    assert la + PGSIZE <= end || la + PGSIZE == WORD;
  }

  lemma CopyMore(h: Header, file: seq<byte>, frames: nat -> Option<Frame>, m: Memory, m1: Memory, start: nat, la: nat, offset: nat,
                 page: Frame, m2: Memory, size: nat, start': nat, la': nat)
    requires Copying(h, file, frames, m, m1, start, la, offset) && start < h.va + h.filesz && frames(la).Some?
    requires la <= start < la + PGSIZE && size == Share(start, la, h.va + h.filesz) && offset + size <= |file|
    requires m2 == m1[la := Put(page, start - la, file[offset..offset + size])] && start' == start + size && la' == la + PGSIZE
    ensures Copying(h, file, frames, m, m2, start', la', offset + size)
  {
    Advance(h, start, la, h.va + h.filesz);
    LoadFilePiece(m, m1, h, file, start, la, offset, size, page);
    GrantedMore(h, frames, la);
  }

  lemma LoadFilePiece(m: Memory, m1: Memory, h: Header, file: seq<byte>, start: nat, la: nat, offset: nat, size: nat, page: Frame)
    requires Loaded(m, m1, h, file, start, la) && PageOf(h.va) <= la && (start == h.va || start == la) && h.va <= start
    requires la <= start && start + size <= la + PGSIZE && start + size <= h.va + h.filesz
    requires offset == h.offset + (start - h.va) && offset + size <= |file|
    ensures Loaded(m, m1[la := Put(page, start - la, file[offset..offset + size])], h, file, start + size, la + PGSIZE)
  {
    var data := file[offset..offset + size];
    assert NextBytes(h, file, la, start, data) by {
      FileBytes(h, file, start, la, offset, size);
    }
    LoadNewPage(m, m1, h, file, start, la, page, data);
  }

  /** The bytes to clear on the page before la, as the code computes them in 32 bits. */
  function TailSize(start: nat, la: nat, end: nat): nat
    requires la - PGSIZE < start < la < WORD && end < WORD
  {
    var size := PGSIZE - (start + PGSIZE - la);
    if end < la then (size - (la - end)) % WORD else size
  }

  /** They fit on the page exactly if the end is not before the start. */
  lemma TailFits(start: nat, la: nat, end: nat)
    requires la - PGSIZE < start < la < WORD && end < WORD && start != end
    ensures var size := TailSize(start, la, end);
            && (start + size <= la <==> start < end)
            && (start < end ==> start + size == if end < la then end else la)
  {
    if end < la {
      assert PGSIZE - (start + PGSIZE - la) - (la - end) == end - start;
      WrappedDifference(end, start);
    }
  }

  lemma WrappedDifference(a: nat, b: nat)
    requires a < WORD && b < WORD
    ensures (a - b) % WORD == if a < b then WORD + a - b else a - b
  {
  }

  lemma TailZeros(m: Memory, m1: Memory, h: Header, file: seq<byte>, start: nat, la: nat, zeros: seq<byte>)
    requires Loaded(m, m1, h, file, start, la) && h.va + h.filesz == start && PageOf(h.va) < la && la - PGSIZE < start
    requires start + |zeros| <= la && forall i :: 0 <= i < |zeros| ==> zeros[i] == 0
    ensures la - PGSIZE in m1
    ensures Loaded(m, m1[la - PGSIZE := Put(m1[la - PGSIZE], start + PGSIZE - la, zeros)], h, file, start + |zeros|, la)
  {
    assert NextBytes(h, file, la - PGSIZE, start, zeros);
    LoadSamePage(m, m1, h, file, start, la - PGSIZE, zeros);
  }

  ghost predicate LoadedAll(m: Memory, m': Memory, h: Header, file: seq<byte>) {
    Loaded(m, m', h, file, h.va + h.memsz, PagesEnd(h.va + h.memsz))
  }

  /** Why a segment whose end is in order is not loaded. */
  ghost predicate Outcome(ret: Ret, h: Header, file: seq<byte>, frames: nat -> Option<Frame>) {
    && ret in {Ok, NoPage, ReadError}
    && (ret == ReadError ==> h.offset + h.filesz > |file|)
    && (ret == NoPage ==> !Granted(h, frames, PagesEnd(h.va + h.memsz)))
  }

  /** What happens to a segment whose end wraps: nothing at all if the end of its bytes in
      the file wraps too; otherwise they are loaded, if they can be, and then the rest is
      left out, or a memset runs over the page they end in. */
  ghost predicate WrappedOutcome(ret: Ret, m: Memory, m': Memory, h: Header, file: seq<byte>, frames: nat -> Option<Frame>) {
    var end := h.va + h.filesz;
    && (end >= WORD ==> ret == Ok && m' == m)
    && (WORD - PGSIZE < end < WORD ==> ret in {NoPage, ReadError})
    && (end <= WORD - PGSIZE && ret in {Ok, Overrun} ==>
        Loaded(m, m', h, file, end, PagesEnd(end)) && (ret == Ok <==> end % PGSIZE == 0))
    && (end <= WORD - PGSIZE ==>
        (ret in {Ok, Overrun} <==> h.offset + h.filesz <= |file| && Granted(h, frames, PagesEnd(end))))
  }

  /** A page refused for the bytes of the file is one of the segment. */
  lemma GrantedBefore(h: Header, frames: nat -> Option<Frame>, end: nat, end': nat)
    requires end <= end' && Granted(h, frames, PagesEnd(end'))
    ensures Granted(h, frames, PagesEnd(end))
  {
  }

  /** Where the cursors stand behind the bytes of the file. */
  lemma CursorsAtEnd(h: Header, end: nat, la: nat)
    requires Cursors(h, end, la, end) && end > h.va && la % PGSIZE == 0
    ensures la == PagesEnd(end) && (end < la <==> end % PGSIZE != 0)
  {
    PagesEndIs(end, la);
  }

  /** A segment beyond the end of the address space cannot be loaded. */
  lemma WrappedIsNotLoaded(m: Memory, m': Memory, h: Header, file: seq<byte>)
    requires Addressable(m') && h.va < WORD && h.va + h.memsz > WORD
    ensures !LoadedAll(m, m', h, file)
  {
    assert PageOf(WORD) == WORD && WORD !in m';
    assert !Mapped(m', WORD);
  }

  /** What a loaded segment is: the file's bytes, then zeros, as the PT_LOAD rule asks. */
  lemma SegmentIsLoaded(m: Memory, m': Memory, h: Header, file: seq<byte>, a: nat)
    requires h.filesz <= h.memsz && h.offset + h.filesz <= |file| && LoadedAll(m, m', h, file)
    requires h.va <= a < h.va + h.memsz
    ensures Mapped(m', a) && ByteAt(m', a) == if a < h.va + h.filesz then file[h.offset + (a - h.va)] else 0
  {
  }
}
