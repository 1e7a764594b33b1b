/** The file layer of SFS (kern/fs/sfs/sfs_inode.c, sfs_io.c): allocation of
    blocks, the block map of a file, unaligned reads and writes, truncation and
    reclaiming. Block I/O always succeeds. */
module Sfs {
  import opened SfsLayout
  import opened Wrappers
  import B = Bitmap

  const MAX_FILE_SIZE := 0x800_0000       // 128 MB

  /** Return codes; Panic is a failed assertion or a call of panic(). */
  datatype Ret = Ok | Inval | NoMem | Panic

  /** Writing an entry of a table block. */
  ghost function Entered(fs: Fs, ent: nat, i: nat, b: nat): Fs
    requires Shape(fs) && ent < |fs.disk| && i < NENTRY && b < 0x1_0000_0000
  {
    fs.(disk := fs.disk[ent := PutEntry(fs.disk[ent], i, b)])
  }

  /** What sfs_bmap_get_nolock returns and leaves behind; e is the table in use. */
  ghost predicate Got(s: Fs, s': Fs, k: nat, index: nat, create: bool, ret: Ret, ino: nat, e: nat)
    requires Shape(s) && k in s.inodes && forall b :: b in s.free ==> b < |s.disk|
  {
    var n := s.inodes[k];
    if index >= MAX_BLOCKS then
      ret == Panic && s' == s
    else if !create || Holds(s, Data(k, index)) != 0 then
      ret == Ok && ino == Holds(s, Data(k, index)) && s' == s
    else if index < NDIRECT then
      && (ret == NoMem <==> s.free == {})
      && (ret == NoMem ==> s' == s)
      && (ret != NoMem ==> ret == Ok && ino in s.free)
      && (ret != NoMem ==> s' == Taken(s, ino).(inodes := s.inodes[k := n.(direct := n.direct[index := ino])]))
    else if n.indirect != 0 then
      && (ret == NoMem <==> s.free == {})
      && (ret == NoMem ==> s' == s)
      && (ret != NoMem ==> ret == Ok && ino in s.free)
      && (ret != NoMem ==> s' == Entered(Taken(s, ino), n.indirect, index - NDIRECT, ino))
    else
      && (ret == NoMem <==> |s.free| < 2)
      && (ret == NoMem ==> s' == s || (e in s.free && s' == Given(Taken(s, e), e)))
      && (ret != NoMem ==> ret == Ok && e in s.free && ino in s.free && ino != e)
      && (ret != NoMem ==> s' == Entered(Taken(Taken(s, e), ino), e, index - NDIRECT, ino)
                                   .(inodes := s.inodes[k := n.(indirect := e)]))
  }

  /** The new owners when index is the block after the last one of file k. */
  ghost function Owners(own: map<nat, Role>, n: Inode, k: nat, ino: nat, e: nat): map<nat, Role> {
    (if Needed(n) == 2 then own[e := Indirect(k)] else own)[ino := Data(k, n.blocks)]
  }

  ghost function OneMore(s: Fs, k: nat): Fs
    requires k in s.inodes
  {
    s.(inodes := s.inodes[k := s.inodes[k].(blocks := s.inodes[k].blocks + 1)])
  }

  lemma LoadedNew(s: Fs, own: map<nat, Role>, s1: Fs, k: nat, ino: nat, e: nat)
    requires Inv(s, own) && k in s.inodes && s.inodes[k].blocks < MAX_BLOCKS
    requires Got(s, s1, k, s.inodes[k].blocks, true, Ok, ino, e)
    ensures k in s1.inodes
    ensures var s2 := OneMore(s1, k);
            && Inv(s2, Owners(own, s.inodes[k], k, ino, e)) && Grew(s, s2, k)
            && Holds(s2, Data(k, s.inodes[k].blocks)) == ino
  {
    if Needed(s.inodes[k]) == 1 {
      LoadedOne(s, s1, k, ino, e);
      GrowOnce(s, own, k, ino, OneMore(s1, k));
    } else {
      LoadedTwo(s, s1, k, ino, e);
      GrowTwice(s, own, k, e, ino, OneMore(s1, k));
    }
  }

  lemma LoadedOne(s: Fs, s1: Fs, k: nat, ino: nat, e: nat)
    requires Shape(s) && (forall b :: b in s.free ==> b < |s.disk|) && k in s.inodes
    requires s.inodes[k].blocks < MAX_BLOCKS && Holds(s, Data(k, s.inodes[k].blocks)) == 0 && Needed(s.inodes[k]) == 1
    requires Got(s, s1, k, s.inodes[k].blocks, true, Ok, ino, e)
    ensures k in s1.inodes && ino in s.free && Appended(Taken(s, ino), OneMore(s1, k), k, ino)
  {
  }

  lemma LoadedTwo(s: Fs, s1: Fs, k: nat, ino: nat, e: nat)
    requires Shape(s) && (forall b :: b in s.free ==> 0 < b < |s.disk|) && k in s.inodes
    requires s.inodes[k].blocks < MAX_BLOCKS && Holds(s, Data(k, s.inodes[k].blocks)) == 0 && Needed(s.inodes[k]) == 2
    requires Got(s, s1, k, s.inodes[k].blocks, true, Ok, ino, e)
    ensures k in s1.inodes && e in s.free && ino in s.free && ino != e
    ensures Appended(WithTable(Taken(Taken(s, e), ino), k, e), OneMore(s1, k), k, ino)
  {
    assert OneMore(s1, k) == GrownIndirect(WithTable(Taken(Taken(s, e), ino), k, e), k, ino);
  }

  lemma LoadedNothing(s: Fs, own: map<nat, Role>, s1: Fs, k: nat, ino: nat, e: nat)
    requires Inv(s, own) && k in s.inodes && s.inodes[k].blocks < MAX_BLOCKS
    requires Got(s, s1, k, s.inodes[k].blocks, true, NoMem, ino, e)
    ensures Inv(s1, own) && Undone(s, s1) && |s.free| < Needed(s.inodes[k])
  {
    assert Holds(s, Data(k, s.inodes[k].blocks)) == 0;
    if s1 != s {
      UndoTake(s, own, e);
    }
  }

  /** What sfs_bmap_load_nolock promises: the block at an index of a file, or a new
      one at its end. It fails exactly when the blocks it needs are missing, and
      then takes none. */
  ghost predicate Loaded(s: Fs, s': Fs, k: nat, index: nat, ret: Ret, ino: nat) {
    && Shape(s) && Shape(s') && k in s.inodes && k in s'.inodes
    && var blocks := s.inodes[k].blocks;
       && ret in {Ok, NoMem, Panic}
       && (ret == Panic <==> index > blocks || index == MAX_BLOCKS)
       && (ret == NoMem <==> index == blocks < MAX_BLOCKS && |s.free| < Needed(s.inodes[k]))
       && (ret == Panic || index < blocks ==> s' == s)
       && (ret == NoMem ==> Undone(s, s'))
       && (ret == Ok ==> index < s'.inodes[k].blocks && ino == Holds(s', Data(k, index)))
       && (ret == Ok && index == blocks ==> Grew(s, s', k))
  }

  lemma LoadOutcome(s: Fs, own: map<nat, Role>, s1: Fs, k: nat, index: nat, ret: Ret, ino: nat, e: nat)
    returns (own': map<nat, Role>)
    requires Inv(s, own) && k in s.inodes && index <= s.inodes[k].blocks
    requires Got(s, s1, k, index, index == s.inodes[k].blocks, ret, ino, e)
    ensures k in s1.inodes
    ensures var s2 := if index == s.inodes[k].blocks && ret == Ok then OneMore(s1, k) else s1;
            Inv(s2, own') && Loaded(s, s2, k, index, ret, ino)
    ensures !(index == s.inodes[k].blocks && ret == Ok) ==> own' == own
  {
    own' := own;
    assert Holds(s, Data(k, index)) == 0 <==> index == s.inodes[k].blocks;
    if index == s.inodes[k].blocks < MAX_BLOCKS {
      if ret == Ok {
        LoadedNew(s, own, s1, k, ino, e);
        own' := Owners(own, s.inodes[k], k, ino, e);
      } else {
        LoadedNothing(s, own, s1, k, ino, e);
      }
    }
  }

  /** Where a transfer stands: data are the bytes moved so far. A read, too, creates the
      block after the last one when it gets there, which only happens in a file that does
      not lie in its blocks. */
  ghost predicate Moved(s: Fs, s': Fs, k: nat, at: nat, data: seq<byte>, write: bool) {
    && Replaced(s, s', k, at, if write then data else []) && s'.inodes[k].size == s.inodes[k].size
    && Paid(s.inodes[k], s'.inodes[k], |s.free|, |s'.free|)
    && (data != [] ==> at + |data| <= s'.inodes[k].blocks * BLKSIZE)
    && (!write && Sized(s.inodes[k]) ==> s' == s)
    && (!write ==> forall j: nat :: j < |data| ==> data[j] == Before(s, k, at + j))
  }

  lemma ReadMore(s: Fs, mid: Fs, k: nat, at: nat, data: seq<byte>, i: nat, off: nat, more: seq<byte>)
    requires Moved(s, mid, k, at, data, false) && at + |data| == i * BLKSIZE + off && off + |more| <= BLKSIZE
    requires i < mid.inodes[k].blocks && Holds(mid, Data(k, i)) < |mid.disk|
    requires more == mid.disk[Holds(mid, Data(k, i))][off..off + |more|]
    ensures Moved(s, mid, k, at, data + more, false)
  {
    forall j: nat | j < |data + more| ensures (data + more)[j] == Before(s, k, at + j) {
      if j >= |data| {
        InBlock(i, at + j);
        assert HasByte(mid, k, at + j);
      }
    }
  }

  lemma InBlock(i: nat, j: nat)
    requires i * BLKSIZE <= j < (i + 1) * BLKSIZE
    ensures j / BLKSIZE == i && j % BLKSIZE == j - i * BLKSIZE
  {
  }

  /** The sum of an offset and a 32-bit length falls below the offset exactly when
      it does not fit. */
  lemma SignedSum(offset: int, len: nat)
    requires 0 <= offset < 0x8000_0000 && len < 0x1_0000_0000
    ensures var endpos := Signed(offset + len);
            (offset > endpos <==> offset + len >= 0x8000_0000) && (offset <= endpos ==> endpos == offset + len)
  {
  }

  function Least(a: int, b: int): int {
    if a < b then a else b
  }

  /** The bytes from `from` up to `to`, as far as there are any. */
  ghost function Slice(s: seq<byte>, from: nat, to: int): seq<byte> {
    if from < Least(to, |s|) then s[from..Least(to, |s|)] else []
  }

  function BlocksFor(len: nat): nat {
    (len + BLKSIZE - 1) / BLKSIZE
  }

  /** Whether a file can be given t blocks when `free` are free; a larger file than the
      block map has room for is an assertion that fails, if it comes to that. */
  function GrowCode(n: Inode, free: nat, t: nat): Ret {
    if free < Cost(n, Least(t, MAX_BLOCKS)) then NoMem else if t > MAX_BLOCKS then Panic else Ok
  }

  /** How a transfer of the bytes from `at` to `end` ends: it must not leave out a block. */
  function MoveCode(n: Inode, free: nat, at: nat, end: nat): Ret {
    if at / BLKSIZE > n.blocks then Panic else GrowCode(n, free, BlocksFor(end))
  }

  /** Where a transfer of len bytes at the offset ends. */
  function EndOf(n: Inode, offset: int, len: nat, write: bool): int {
    var end := Least(offset + len, MAX_FILE_SIZE);
    if write then end else Least(end, n.size)
  }

  /** How sfs_io ends. */
  function IoCode(n: Inode, free: nat, offset: int, len: nat, write: bool): Ret {
    if offset < 0 || offset >= MAX_FILE_SIZE || offset + len >= 0x8000_0000 then Inval
    else if offset < EndOf(n, offset, len, write) then MoveCode(n, free, offset, EndOf(n, offset, len, write))
    else Ok
  }

  /** A file that lies in its blocks can always be read. */
  lemma ReadsSucceed(n: Inode, free: nat, offset: int, len: nat)
    requires Sized(n) && n.blocks <= MAX_BLOCKS
    ensures IoCode(n, free, offset, len, false) in {Ok, Inval}
  {
  }

  /** Offset `at` is inside the block after the last one, and there is none to be had. */
  predicate LeavesGap(n: Inode, free: nat, at: nat) {
    n.blocks < MAX_BLOCKS && n.blocks * BLKSIZE < at < (n.blocks + 1) * BLKSIZE && free < Needed(n)
  }

  /** What a write of the bytes from `at` to `end` made of an inode when it moved `alen`
      bytes, with `free` blocks free before and `left` after. It moves all of them, or as
      many as there are blocks for. The file then lies in its blocks, except that a write
      that leaves a gap moves the size to `at` without having the block. */
  ghost predicate Wrote(n: Inode, n': Inode, free: nat, left: nat, at: nat, end: nat, ret: Ret, alen: nat) {
    && at + alen <= end && (ret == Ok <==> at + alen == end)
    && ret == MoveCode(n, free, at, end) && Paid(n, n', free, left)
    && n'.size == (if ret != Panic && at + alen > n.size then at + alen else n.size)
    && (ret == NoMem ==> left < Needed(n') && (at + alen) / BLKSIZE == n'.blocks)
    && (Sized(n) ==> (Sized(n') <==> !LeavesGap(n, free, at)))
  }

  lemma CostGrows(n: Inode, t: nat, u: nat)
    requires t <= u
    ensures Cost(n, t) <= Cost(n, u)
  {
  }

  lemma CostOfOne(n: Inode, t: nat)
    requires n.blocks > NDIRECT ==> n.indirect != 0
    ensures t > n.blocks ==> Cost(n, t) >= Needed(n)
  {
  }

  /** Where growing stops decides the return code. */
  lemma GrowCodeIs(n: Inode, n': Inode, free: nat, left: nat, t: nat, ret: Ret)
    requires Paid(n, n', free, left) && n'.blocks <= MAX_BLOCKS && ret in {Ok, NoMem, Panic}
    requires ret == Ok ==> t <= n'.blocks
    requires ret == NoMem ==> left < Needed(n') && n'.blocks < t && n'.blocks < MAX_BLOCKS
    requires ret == Panic ==> n'.blocks == MAX_BLOCKS < t
    ensures ret == GrowCode(n, free, t)
  {
    if ret == NoMem {
      CostGrows(n, n'.blocks + 1, Least(t, MAX_BLOCKS));
    } else {
      CostGrows(n, Least(t, MAX_BLOCKS), n'.blocks);
    }
  }

  /** The arithmetic behind Wrote, for the inode before its size is updated. */
  lemma SizeAfterWrite(n: Inode, n': Inode, free: nat, left: nat, at: nat, end: nat, ret: Ret, alen: nat)
    requires n'.size == n.size && Paid(n, n', free, left) && n'.blocks <= MAX_BLOCKS && at < end
    requires Stopped(n, n', left, at, end, ret, alen)
    ensures var grows := ret != Panic && at + alen > n'.size;
            Wrote(n, if grows then n'.(size := at + alen) else n', free, left, at, end, ret, alen)
  {
    StoppedCode(n, n', free, left, at, end, ret, alen);
    if Sized(n) {
      GapAfterWrite(n, n', free, left, at, end, ret, alen);
    }
  }

  lemma StoppedCode(n: Inode, n': Inode, free: nat, left: nat, at: nat, end: nat, ret: Ret, alen: nat)
    requires Paid(n, n', free, left) && n'.blocks <= MAX_BLOCKS && at < end && Stopped(n, n', left, at, end, ret, alen)
    ensures ret == MoveCode(n, free, at, end)
  {
    if at / BLKSIZE <= n.blocks {
      GrowCodeIs(n, n', free, left, BlocksFor(end), ret);
    }
  }

  /** Where a transfer of the bytes from `at` to `end` stops. */
  ghost predicate Stopped(n: Inode, n': Inode, left: nat, at: nat, end: nat, ret: Ret, alen: nat) {
    && at + alen <= end && (ret == Ok <==> at + alen == end) && ret in {Ok, NoMem, Panic}
    && (alen > 0 ==> at + alen <= n'.blocks * BLKSIZE)
    && (at / BLKSIZE > n.blocks ==> ret == Panic && alen == 0)
    && (ret == Panic ==> at / BLKSIZE > n.blocks || (end > MAX_BLOCKS * BLKSIZE && n'.blocks == MAX_BLOCKS))
    && (ret == NoMem ==> left < Needed(n') && (at + alen) / BLKSIZE == n'.blocks < MAX_BLOCKS)
  }

  lemma GapAfterWrite(n: Inode, n': Inode, free: nat, left: nat, at: nat, end: nat, ret: Ret, alen: nat)
    requires Sized(n) && Paid(n, n', free, left) && n'.blocks <= MAX_BLOCKS && at < end && Stopped(n, n', left, at, end, ret, alen)
    ensures var size := if ret != Panic && at + alen > n.size then at + alen else n.size;
            size <= n'.blocks * BLKSIZE <==> !LeavesGap(n, free, at)
  {
    CostOfOne(n, n'.blocks);
  }

  /** The smallest case: a write at offset 1 of the empty file of a full disk. */
  lemma WriteLeavesGap(n': Inode, left: nat, ret: Ret, alen: nat)
    requires Wrote(EmptyFile(), n', |SmallDisk(0).free|, left, 1, 2, ret, alen)
    ensures Inv(SmallDisk(0), map[1 := Self(1)]) && SmallDisk(0).inodes[1] == EmptyFile()
    ensures ret == NoMem && n'.size == 1 && n'.blocks == 0 && !Sized(n')
  {
    SmallDiskIsSound(0);
  }

  function EmptyFile(): Inode {
    Inode(0, 0, seq(NDIRECT, _ => 0), 0)
  }

  /** A disk with an empty file and `spare` free blocks. */
  ghost function SmallDisk(spare: nat): Fs {
    Fs(seq(2 + spare, _ => Zeros()), Spare(spare), spare, map[1 := EmptyFile()])
  }

  /** The first blocks behind the superblock and that file. */
  ghost function Spare(n: nat): (r: set<nat>)
    ensures |r| == n && forall b :: b in r <==> 2 <= b < 2 + n
  {
    if n == 0 then {} else Spare(n - 1) + {n + 1}
  }

  lemma SmallDiskIsSound(spare: nat)
    requires spare < 0x1000_0000
    ensures Inv(SmallDisk(spare), map[1 := Self(1)]) && Sized(EmptyFile()) && |SmallDisk(spare).free| == spare
  {
  }

  lemma ReadContents(s: Fs, s': Fs, k: nat, at: nat, data: seq<byte>)
    requires Moved(s, s', k, at, data, false) && at + |data| <= s.inodes[k].size && Sized(s.inodes[k])
    ensures data == Contents(s, k)[at..at + |data|]
  {
    forall j: nat | j < |data| ensures data[j] == Contents(s, k)[at + j] {
      assert HasByte(s, k, at + j);
    }
  }

  class Sfs {
    const freemap: B.Bitmap
    var disk: seq<Block>
    var unused: int                       // super.unused_blocks
    var inodes: map<nat, Inode>           // the inodes in memory, by block number
    var buffer: Block                     // sfs_buffer
    ghost var owner: map<nat, Role>

    ghost function State(): Fs
      reads `disk, `unused, `inodes, freemap.words
    {
      Fs(disk, freemap.Free(), unused, inodes)
    }

    ghost predicate Ready()
      reads `disk, `unused, `inodes, freemap.words
    {
      && freemap.Valid() && freemap.nbits == |disk| && Shape(State())
      && unused == |freemap.Free()| && 0 !in freemap.Free()
    }

    ghost predicate Valid()
      reads `disk, `unused, `inodes, `owner, freemap.words
    {
      Ready() && Inv(State(), owner)
    }

    /** A mounted file system, as it was found on the disk. */
    constructor (freemap: B.Bitmap, disk: seq<Block>, unused: int, inodes: map<nat, Inode>, ghost owner: map<nat, Role>)
      requires freemap.Valid() && freemap.nbits == |disk|
      requires Inv(Fs(disk, freemap.Free(), unused, inodes), owner)
      ensures Valid() && State() == Fs(disk, freemap.Free(), unused, inodes) && this.freemap == freemap
    {
      this.freemap, this.disk, this.unused, this.inodes := freemap, disk, unused, inodes;
      this.buffer, this.owner := Zeros(), owner;
    }

    // ---------- blocks (sfs_io.c) ----------

    method Rbuf(len: nat, blkno: nat, offset: nat) returns (buf: seq<byte>)
      requires Shape(State()) && 0 < blkno < |disk| && offset < BLKSIZE && offset + len <= BLKSIZE
      modifies `buffer
      ensures buf == disk[blkno][offset..offset + len]
    {
      buffer := disk[blkno];
      buf := buffer[offset..offset + len];
    }

    method Wbuf(buf: seq<byte>, blkno: nat, offset: nat)
      requires Shape(State()) && 0 < blkno < |disk| && offset < BLKSIZE && offset + |buf| <= BLKSIZE
      modifies `buffer, `disk
      ensures disk == old(disk)[blkno := Put(old(disk)[blkno], offset, buf)]
    {
      buffer := disk[blkno];
      buffer := Put(buffer, offset, buf);
      disk := disk[blkno := buffer];
    }

    method ClearBlock(blkno: nat)
      requires 0 < blkno < |disk|
      modifies `buffer, `disk
      ensures disk == old(disk)[blkno := Zeros()]
    {
      buffer := Zeros();
      disk := disk[blkno := buffer];
    }

    // ---------- allocation (sfs_inode.c) ----------

    /** The lowest free block, cleared; fails exactly if there is none. */
    method BlockAlloc() returns (b: Option<nat>)
      requires Ready()
      modifies `buffer, `disk, `unused, freemap.words
      ensures Ready()
      ensures b.None? <==> old(freemap.Free()) == {}
      ensures b.None? ==> State() == old(State())
      ensures b.Some? ==> b.value in old(freemap.Free()) && State() == Taken(old(State()), b.value)
      ensures b.Some? ==> forall j :: j in old(freemap.Free()) ==> b.value <= j
    {
      b := freemap.Alloc();
      if b.None? {
        return;
      }
      assert b.value in old(freemap.Free());
      assert unused > 0;
      unused := unused - 1;
      ClearBlock(b.value);
    }

    method BlockFree(b: nat)
      requires Ready() && InUse(State(), b)
      modifies `unused, freemap.words
      ensures Ready() && State() == Given(old(State()), b)
    {
      freemap.Release(b);
      unused := unused + 1;
    }

    // ---------- the block map ----------

    /** sfs_bmap_get_sub_nolock: entry `index` of table `ent`; both may have to be
        created, and a table created in vain is given back. */
    method BmapGetSub(ent: nat, index: nat, create: bool) returns (ret: Ret, ent': nat, ino: nat)
      requires Ready() && ent < |disk| && index < NENTRY
      modifies `buffer, `disk, `unused, freemap.words
      ensures Ready()
      ensures var s := old(State());
              var there := if ent == 0 then 0 else Entry(s.disk[ent], index);
              if !create || there != 0 then ret == Ok && ent' == ent && ino == there && State() == s
              else if ent != 0 then
                && (ret == NoMem <==> s.free == {})
                && (ret == NoMem ==> State() == s)
                && (ret != NoMem ==> ret == Ok && ent' == ent && ino in s.free
                                     && State() == Entered(Taken(s, ino), ent, index, ino))
              else
                && (ret == NoMem <==> |s.free| < 2)
                && (ret == NoMem ==> State() == s || (ent' in s.free && State() == Given(Taken(s, ent'), ent')))
                && (ret != NoMem ==> ret == Ok && ent' in s.free && ino in s.free && ino != ent'
                                     && State() == Entered(Taken(Taken(s, ent'), ino), ent', index, ino))
    {
      ret, ent', ino := Ok, ent, 0;
      if ent != 0 {
        var word := Rbuf(4, ent, 4 * index);
        ino := Decode(word);
        if ino != 0 || !create {
          return;
        }
      } else {
        if !create {
          return;
        }
        var e := BlockAlloc();
        if e.None? {
          return NoMem, ent, 0;
        }
        ent' := e.value;
      }
      var b := BlockAlloc();
      if b.None? {
        ret := NoMem;
        if ent' != ent {
          BlockFree(ent');
        }
        return;
      }
      ino := b.value;
      Wbuf(Encode(ino), ent', 4 * index);
    }

    /** sfs_bmap_get_nolock. The ghost result is the table that was used. */
    method BmapGet(k: nat, index: nat, create: bool) returns (ret: Ret, ino: nat, ghost e: nat)
      requires Valid() && k in inodes
      modifies `buffer, `disk, `unused, `inodes, freemap.words
      ensures freemap.Valid() && freemap.nbits == |disk|
      ensures Got(old(State()), State(), k, index, create, ret, ino, e)
    {
      ret, ino, e := Ok, 0, 0;
      var din := inodes[k];
      if index < NDIRECT {
        ino := din.direct[index];
        if ino == 0 && create {
          var b := BlockAlloc();
          if b.None? {
            return NoMem, 0, 0;
          }
          ino := b.value;
          inodes := inodes[k := din.(direct := din.direct[index := ino])];
        }
      } else if index - NDIRECT < NENTRY {
        var ent;
        ret, ent, ino := BmapGetSub(din.indirect, index - NDIRECT, create);
        e := ent;
        if ret != Ok {
          return;
        }
        if ent != din.indirect {
          assert din.indirect == 0;
          inodes := inodes[k := din.(indirect := ent)];
        }
      } else {
        ret := Panic;
      }
    }

    /** sfs_bmap_load_nolock: the block at an index of a file, which may be the
        one after the last. It fails exactly when the blocks it needs are missing,
        and then takes none. */
    method BmapLoad(k: nat, index: nat) returns (ret: Ret, ino: nat)
      requires Valid() && k in inodes
      modifies `buffer, `disk, `unused, `inodes, `owner, freemap.words
      ensures Valid() && Loaded(old(State()), State(), k, index, ret, ino)
    {
      ino := 0;
      if index > inodes[k].blocks {
        return Panic, 0;
      }
      ghost var s, own, e := State(), owner, 0;
      var create := index == inodes[k].blocks;
      ret, ino, e := BmapGet(k, index, create);
      ghost var own' := LoadOutcome(s, own, State(), k, index, ret, ino, e);
      if create && ret == Ok {
        IncrementBlocks(k);
        owner := own';
      }
    }

    method IncrementBlocks(k: nat)
      requires k in inodes
      modifies `inodes
      ensures State() == OneMore(old(State()), k)
    {
      inodes := inodes[k := inodes[k].(blocks := inodes[k].blocks + 1)];
    }

    // ---------- reading and writing ----------

    /** One block's share of a transfer: load the block, then copy `size` bytes. */
    method Transfer(k: nat, blkno: nat, blkoff: nat, size: nat, chunk: seq<byte>, write: bool,
                    ghost s: Fs, ghost at: nat, ghost data: seq<byte>)
      returns (ret: Ret, moved: seq<byte>)
      requires Valid() && k in inodes && 0 < size && blkoff + size <= BLKSIZE
      requires Moved(s, State(), k, at, data, write) && at + |data| == blkno * BLKSIZE + blkoff
      requires if write then |chunk| == size else Sized(s.inodes[k]) ==> blkno < inodes[k].blocks
      modifies `buffer, `disk, `unused, `inodes, `owner, freemap.words
      ensures Valid() && k in inodes
      ensures Moved(s, State(), k, at, data + moved, write)
      ensures ret == Ok ==> |moved| == size && blkno < inodes[k].blocks && (write ==> moved == chunk)
      ensures ret != Ok ==> moved == [] && inodes[k].blocks == old(inodes[k].blocks)
      ensures ret == Panic <==> blkno > old(inodes[k].blocks) || blkno == MAX_BLOCKS
      ensures ret == NoMem ==> blkno == inodes[k].blocks < MAX_BLOCKS && |freemap.Free()| < Needed(inodes[k])
      ensures ret in {Ok, NoMem, Panic}
    {
      var ino;
      ret, ino := LoadFor(k, blkno, write, s, at, data);
      moved := [];
      if ret != Ok {
        assert data + moved == data;
        return;
      }
      if write {
        PutChunk(k, ino, blkno, blkoff, chunk, s, at, data);
        moved := chunk;
      } else {
        moved := GetChunk(k, ino, blkno, blkoff, size, s, at, data);
      }
    }

    method PutChunk(k: nat, ino: nat, ghost blkno: nat, blkoff: nat, chunk: seq<byte>, ghost s: Fs, ghost at: nat, ghost data: seq<byte>)
      requires Valid() && k in inodes && blkno < inodes[k].blocks && ino == Holds(State(), Data(k, blkno))
      requires Moved(s, State(), k, at, data, true) && at + |data| == blkno * BLKSIZE + blkoff && 0 < |chunk| <= BLKSIZE - blkoff
      modifies `buffer, `disk
      ensures Valid() && Moved(s, State(), k, at, data + chunk, true)
    {
      DataIsNoTable(State(), owner, k, blkno, k);
      ReplaceMore(s, State(), owner, k, at, data, blkno, blkoff, chunk);
      WriteBytes(chunk, ino, blkoff);
    }

    method GetChunk(k: nat, ino: nat, ghost blkno: nat, blkoff: nat, size: nat, ghost s: Fs, ghost at: nat, ghost data: seq<byte>)
      returns (moved: seq<byte>)
      requires Valid() && k in inodes && blkno < inodes[k].blocks && ino == Holds(State(), Data(k, blkno))
      requires Moved(s, State(), k, at, data, false) && at + |data| == blkno * BLKSIZE + blkoff && 0 < size <= BLKSIZE - blkoff
      modifies `buffer
      ensures Valid() && |moved| == size && Moved(s, State(), k, at, data + moved, false)
    {
      DataIsNoTable(State(), owner, k, blkno, k);
      moved := ReadBytes(size, ino, blkoff);
      ReadMore(s, State(), k, at, data, blkno, blkoff, moved);
    }

    /** sfs_bmap_load_nolock in the course of a transfer. */
    method LoadFor(k: nat, blkno: nat, write: bool, ghost s: Fs, ghost at: nat, ghost data: seq<byte>) returns (ret: Ret, ino: nat)
      requires Valid() && k in inodes && Moved(s, State(), k, at, data, write)
      requires !write && Sized(s.inodes[k]) ==> blkno < inodes[k].blocks
      modifies `buffer, `disk, `unused, `inodes, `owner, freemap.words
      ensures Valid() && k in inodes && Moved(s, State(), k, at, data, write)
      ensures ret == Ok ==> blkno < inodes[k].blocks && ino == Holds(State(), Data(k, blkno))
      ensures ret != Ok ==> inodes[k].blocks == old(inodes[k].blocks)
      ensures ret == Panic <==> blkno > old(inodes[k].blocks) || blkno == MAX_BLOCKS
      ensures ret == NoMem ==> blkno == inodes[k].blocks < MAX_BLOCKS && |freemap.Free()| < Needed(inodes[k])
      ensures ret in {Ok, NoMem, Panic}
    {
      ghost var before, put := State(), if write then data else [];
      ret, ino := BmapLoad(k, blkno);
      if ret == NoMem {
        ReplaceThenUndo(s, before, State(), k, at, put);
      } else if ret == Ok && blkno == before.inodes[k].blocks {
        ReplaceThenGrow(s, before, State(), k, at, put);
        PaidMore(s.inodes[k], before, State(), k, |s.free|);
      }
    }

    /** sfs_wbuf, or sfs_wblock for a whole block. */
    method WriteBytes(chunk: seq<byte>, blkno: nat, offset: nat)
      requires Ready() && 0 < blkno < |disk| && 0 < |chunk| && offset + |chunk| <= BLKSIZE
      modifies `buffer, `disk
      ensures Ready() && State() == Written(old(State()), blkno, offset, chunk)
    {
      if |chunk| == BLKSIZE {
        assert Put(disk[blkno], 0, chunk) == chunk;
        disk := disk[blkno := chunk];
      } else {
        Wbuf(chunk, blkno, offset);
      }
    }

    /** sfs_rbuf, or sfs_rblock for a whole block. */
    method ReadBytes(size: nat, blkno: nat, offset: nat) returns (got: seq<byte>)
      requires Ready() && 0 < blkno < |disk| && 0 < size && offset + size <= BLKSIZE
      modifies `buffer
      ensures got == disk[blkno][offset..offset + size]
    {
      if size == BLKSIZE {
        got := disk[blkno];
      } else {
        got := Rbuf(size, blkno, offset);
      }
    }

    /** sfs_io_nolock. A read returns exactly the bytes of the file at offset and
        changes nothing if the file lies in its blocks. A write replaces exactly the bytes
        it reports, in this file and nowhere else, also when it runs out of blocks. */
    method IoNolock(k: nat, buf: seq<byte>, offset: int, len: nat, write: bool) returns (ret: Ret, alen: nat, data: seq<byte>)
      requires Valid() && k in inodes
      requires -0x8000_0000 <= offset < 0x8000_0000 && len < 0x1_0000_0000 && (write ==> |buf| == len)
      modifies `buffer, `disk, `unused, `inodes, `owner, freemap.words
      ensures Valid() && k in inodes && alen == |data|
      ensures ret == IoCode(old(inodes[k]), |old(freemap.Free())|, offset, len, write)
      ensures ret == Inval || offset >= EndOf(old(inodes[k]), offset, len, write) ==> State() == old(State()) && alen == 0
      ensures ret != Inval && offset < EndOf(old(inodes[k]), offset, len, write) ==>
                && alen <= EndOf(old(inodes[k]), offset, len, write) - offset
                && (ret == Ok <==> alen == EndOf(old(inodes[k]), offset, len, write) - offset)
      ensures ret != Inval && !write ==> Moved(old(State()), State(), k, offset, data, false)
      ensures ret != Inval && write && len > 0 ==>
                && Carried(data, buf, true) && Replaced(old(State()), State(), k, offset, data)
                && Wrote(old(inodes[k]), inodes[k], |old(freemap.Free())|, |freemap.Free()|, offset,
                         Least(offset + len, MAX_FILE_SIZE), ret, alen)
    {
      var endpos := Signed(offset + len);
      if offset >= 0 {
        SignedSum(offset, len);
      }
      data, alen := [], 0;
      PaidNothing(State(), owner, k);
      if offset < 0 || offset >= MAX_FILE_SIZE || offset > endpos {
        return Inval, alen, data;
      }
      if offset == endpos {
        return Ok, alen, data;
      }
      endpos := Least(endpos, MAX_FILE_SIZE);
      if !write {
        if offset >= inodes[k].size {
          return Ok, alen, data;
        }
        endpos := Least(endpos, inodes[k].size);
      }
      ret, data := MoveAndResize(k, buf, offset, endpos, write);
      alen := |data|;
    }

    /** sfs_io: a file system is a map from files to sequences of bytes. A read at
        any offset and a write at an offset within or at the end of the file act on
        that map alone; behind the end, the bytes the last block had come up again. */
    method Io(k: nat, buf: seq<byte>, offset: int, len: nat, write: bool) returns (ret: Ret, alen: nat, data: seq<byte>)
      requires Valid() && k in inodes
      requires -0x8000_0000 <= offset < 0x8000_0000 && len < 0x1_0000_0000 && (write ==> |buf| == len)
      modifies `buffer, `disk, `unused, `inodes, `owner, freemap.words
      ensures Valid() && inodes.Keys == old(inodes.Keys) && alen == |data|
      ensures ret == IoCode(old(inodes[k]), |old(freemap.Free())|, offset, len, write)
      ensures forall l :: l in inodes && l != k ==> inodes[l] == old(inodes)[l]
      ensures forall l :: l in inodes && l != k && Sized(inodes[l]) ==> Contents(State(), l) == old(Contents(State(), l))
      ensures !write && ret != Inval && old(Sized(inodes[k])) ==>
                && ret == Ok && State() == old(State())
                && data == Slice(old(Contents(State(), k)), offset, Least(offset + len, MAX_FILE_SIZE))
      ensures write && ret != Panic ==> alen <= len && data == buf[..alen]
      ensures write && ret == Ok ==> alen == Least(len, MAX_FILE_SIZE - offset)
      ensures ret == Inval || len == 0 ==> State() == old(State())
      ensures write && ret != Inval && len > 0 && old(Sized(inodes[k])) ==>
                && (Sized(inodes[k]) <==> !LeavesGap(old(inodes[k]), |old(freemap.Free())|, offset))
                && (ret != Panic && Sized(inodes[k]) ==> Contents(State(), k) == old(WrittenContents(State(), k, offset, buf[..alen])))
                && (ret != Panic && offset <= old(inodes[k].size) ==>
                    Sized(inodes[k]) && Contents(State(), k) == Spliced(old(Contents(State(), k)), offset, buf[..alen]))
    {
      ghost var s := State();
      ret, alen, data := IoNolock(k, buf, offset, len, write);
      if ret == Inval {
        return;
      }
      ghost var s', put := State(), if write then data else [];
      forall l | l in s.inodes && l != k && Sized(s.inodes[l]) && Replaced(s, s', k, offset, put)
        ensures Contents(s', l) == Contents(s, l)
      {
        OtherContents(s, s', k, offset, put, l);
      }
      if Sized(s.inodes[k]) {
        if !write {
          ReadsSucceed(s.inodes[k], |s.free|, offset, len);
          ReadSlice(s, k, offset, len, data);
        } else if len > 0 {
          WroteContents(s, s', k, offset, data, ret);
        }
      }
    }

    /** The transfer and the update of the size that follows it. */
    method MoveAndResize(k: nat, buf: seq<byte>, offset: nat, endpos: nat, write: bool) returns (ret: Ret, data: seq<byte>)
      requires Valid() && k in inodes && offset < endpos
      requires if write then endpos - offset <= |buf| else endpos <= inodes[k].size
      modifies `buffer, `disk, `unused, `inodes, `owner, freemap.words
      ensures Valid() && k in inodes && ret == MoveCode(old(inodes[k]), |old(freemap.Free())|, offset, endpos)
      ensures |data| <= endpos - offset && (ret == Ok <==> |data| == endpos - offset)
      ensures !write ==> Moved(old(State()), State(), k, offset, data, false)
      ensures write ==> Carried(data, buf, true) && Replaced(old(State()), State(), k, offset, data)
      ensures write ==> Wrote(old(inodes[k]), inodes[k], |old(freemap.Free())|, |freemap.Free()|, offset, endpos, ret, |data|)
    {
      ghost var s := State();
      ret, data := MoveBlocks(k, buf, offset, endpos, write);
      StoppedCode(s.inodes[k], inodes[k], |s.free|, |freemap.Free()|, offset, endpos, ret, |data|);
      SizeAfterWrite(s.inodes[k], inodes[k], |s.free|, |freemap.Free()|, offset, endpos, ret, |data|);
      if ret != Panic && offset + |data| > inodes[k].size {
        SetSize(k, offset + |data|, s, offset, data);
      }
    }

    method SetSize(k: nat, size: nat, ghost s: Fs, ghost at: nat, ghost data: seq<byte>)
      requires Valid() && k in inodes && Replaced(s, State(), k, at, data)
      modifies `inodes
      ensures Valid() && Replaced(s, State(), k, at, data)
      ensures inodes == old(inodes)[k := old(inodes)[k].(size := size)]
    {
      ResizeIsHarmless(State(), owner, k, size);
      ReplaceThenResize(s, State(), owner, k, at, data, size);
      ghost var s' := Resized(State(), k, size);
      inodes := inodes[k := inodes[k].(size := size)];
      assert State() == s';
    }

    /** The three parts of a transfer: up to the first block boundary, whole
        blocks, and the rest. */
    method MoveBlocks(k: nat, buf: seq<byte>, offset: nat, endpos: nat, write: bool) returns (ret: Ret, data: seq<byte>)
      requires Valid() && k in inodes && offset < endpos
      requires if write then endpos - offset <= |buf| else endpos <= inodes[k].size
      modifies `buffer, `disk, `unused, `inodes, `owner, freemap.words
      ensures Valid() && k in inodes
      ensures Moved(old(State()), State(), k, offset, data, write) && Carried(data, buf, write)
      ensures Stopped(old(inodes[k]), inodes[k], |freemap.Free()|, offset, endpos, ret, |data|)
    {
      ghost var s := State();
      data := [];
      PaidNothing(s, owner, k);
      assert Moved(s, State(), k, offset, data, write);
      var blkno := offset / BLKSIZE;
      var nblks := endpos / BLKSIZE - blkno;
      var blkoff := offset % BLKSIZE;
      var moved;
      if blkoff != 0 {
        var size := if nblks != 0 then BLKSIZE - blkoff else endpos - offset;
        ret, moved := Transfer(k, blkno, blkoff, size, Chunk(buf, 0, size, write), write, s, offset, data);
        if ret != Ok {
          return;
        }
        CarryMore(data, moved, buf, write);
        data := data + moved;
        if nblks == 0 {
          return;
        }
        blkno, nblks := blkno + 1, nblks - 1;
      }
      ret, data := MoveTail(k, buf, offset, endpos, write, blkno, nblks, s, data);
    }

    /** The parts of a transfer after the first block boundary. */
    method MoveTail(k: nat, buf: seq<byte>, ghost offset: nat, endpos: nat, write: bool, blkno: nat, nblks: nat,
                    ghost s: Fs, data0: seq<byte>)
      returns (ret: Ret, data: seq<byte>)
      requires Valid() && k in inodes && Aligned(s, State(), k, offset, data0, buf, write, blkno)
      requires blkno + nblks == endpos / BLKSIZE && (data0 == [] ==> offset < endpos)
      requires if write then endpos - offset <= |buf| else endpos <= s.inodes[k].size
      modifies `buffer, `disk, `unused, `inodes, `owner, freemap.words
      ensures Valid() && k in inodes
      ensures Moved(s, State(), k, offset, data, write) && Carried(data, buf, write)
      ensures Stopped(s.inodes[k], inodes[k], |freemap.Free()|, offset, endpos, ret, |data|)
    {
      ret, data := MoveWhole(k, buf, offset, endpos, write, blkno, nblks, s, data0);
      if ret != Ok {
        return;
      }
      if endpos % BLKSIZE != 0 {
        ret, data := MoveLast(k, buf, offset, endpos, write, s, data);
      }
    }

    /** The part of the last block. */
    method MoveLast(k: nat, buf: seq<byte>, ghost offset: nat, endpos: nat, write: bool, ghost s: Fs, data0: seq<byte>)
      returns (ret: Ret, data: seq<byte>)
      requires Valid() && k in inodes && endpos % BLKSIZE != 0
      requires Aligned(s, State(), k, offset, data0, buf, write, endpos / BLKSIZE)
      requires if write then endpos - offset <= |buf| else endpos <= s.inodes[k].size
      modifies `buffer, `disk, `unused, `inodes, `owner, freemap.words
      ensures Valid() && k in inodes
      ensures Moved(s, State(), k, offset, data, write) && Carried(data, buf, write)
      ensures Stopped(s.inodes[k], inodes[k], |freemap.Free()|, offset, endpos, ret, |data|)
    {
      var size := endpos % BLKSIZE;
      var moved;
      ret, moved := Transfer(k, endpos / BLKSIZE, 0, size, Chunk(buf, |data0|, size, write), write, s, offset, data0);
      CarryMore(data0, moved, buf, write);
      data := data0 + moved;
    }

    /** One whole block. */
    method MoveOne(k: nat, buf: seq<byte>, ghost offset: nat, write: bool, blkno: nat, ghost s: Fs, data0: seq<byte>)
      returns (ret: Ret, data: seq<byte>)
      requires Valid() && k in inodes && Aligned(s, State(), k, offset, data0, buf, write, blkno)
      requires if write then (blkno + 1) * BLKSIZE - offset <= |buf| else Sized(s.inodes[k]) ==> blkno < inodes[k].blocks
      modifies `buffer, `disk, `unused, `inodes, `owner, freemap.words
      ensures Valid() && k in inodes
      ensures ret == Ok ==> Aligned(s, State(), k, offset, data, buf, write, blkno + 1) && |data| == |data0| + BLKSIZE
      ensures ret != Ok ==> Moved(s, State(), k, offset, data, write) && Carried(data, buf, write) && data == data0
      ensures ret != Ok ==> ret == NoMem || ret == Panic
      ensures ret == Panic ==> offset / BLKSIZE > s.inodes[k].blocks || blkno == inodes[k].blocks == MAX_BLOCKS
      ensures offset / BLKSIZE > s.inodes[k].blocks ==> ret == Panic && data == []
      ensures ret == NoMem ==> |freemap.Free()| < Needed(inodes[k]) && blkno == inodes[k].blocks < MAX_BLOCKS
    {
      var moved;
      ret, moved := Transfer(k, blkno, 0, BLKSIZE, Chunk(buf, |data0|, BLKSIZE, write), write, s, offset, data0);
      data := data0 + moved;
      if ret == Ok {
        CarryMore(data0, moved, buf, write);
      }
    }

    /** The loop over whole blocks. */
    method MoveWhole(k: nat, buf: seq<byte>, ghost offset: nat, ghost endpos: nat, write: bool, blkno0: nat, nblks0: nat,
                     ghost s: Fs, data0: seq<byte>)
      returns (ret: Ret, data: seq<byte>)
      requires Valid() && k in inodes && Aligned(s, State(), k, offset, data0, buf, write, blkno0)
      requires blkno0 + nblks0 == endpos / BLKSIZE
      requires if write then endpos - offset <= |buf| else endpos <= s.inodes[k].size
      modifies `buffer, `disk, `unused, `inodes, `owner, freemap.words
      ensures Valid() && k in inodes
      ensures Moved(s, State(), k, offset, data, write) && Carried(data, buf, write)
      ensures ret == Ok ==> Aligned(s, State(), k, offset, data, buf, write, endpos / BLKSIZE)
      ensures ret != Ok ==> Stopped(s.inodes[k], inodes[k], |freemap.Free()|, offset, endpos, ret, |data|)
      ensures offset / BLKSIZE > s.inodes[k].blocks && ret == Ok ==> data == [] && data0 == []
    {
      data := data0;
      var blkno: nat, nblks: nat := blkno0, nblks0;
      while nblks != 0
        invariant Valid() && k in inodes && Aligned(s, State(), k, offset, data, buf, write, blkno)
        invariant blkno + nblks == endpos / BLKSIZE
        invariant |data0| <= |data|
      {
        EndOfBlock(blkno, endpos);
        ret, data := MoveOne(k, buf, offset, write, blkno, s, data);
        if ret != Ok {
          return;
        }
        blkno, nblks := blkno + 1, nblks - 1;
      }
      ret := Ok;
    }

    // ---------- freeing ----------

    /** sfs_bmap_free_sub_nolock. */
    method BmapFreeSub(ent: nat, index: nat)
      requires Ready() && InUse(State(), ent) && index < NENTRY
      requires var b := Entry(disk[ent], index); b != 0 ==> InUse(State(), b)
      modifies `buffer, `disk, `unused, freemap.words
      ensures Ready()
      ensures var b := Entry(old(disk)[ent], index);
              State() == if b == 0 then old(State()) else Entered(Given(old(State()), b), ent, index, 0)
    {
      var word := Rbuf(4, ent, 4 * index);
      var ino := Decode(word);
      if ino != 0 {
        Wbuf(Encode(0), ent, 4 * index);
        BlockFree(ino);
      }
    }

    /** sfs_bmap_free_nolock. */
    method BmapFree(k: nat, index: nat)
      requires Valid() && k in inodes
      modifies `buffer, `disk, `unused, `inodes, freemap.words
      ensures freemap.Valid() && freemap.nbits == |disk| && State() == Freed(old(State()), k, index)
    {
      var din := inodes[k];
      assert Holds(State(), Data(k, index)) != 0 ==> InUse(State(), Holds(State(), Data(k, index)));
      if index < NDIRECT {
        var ino := din.direct[index];
        if ino != 0 {
          BlockFree(ino);
          inodes := inodes[k := din.(direct := din.direct[index := 0])];
        }
      } else if index - NDIRECT < NENTRY {
        if din.indirect != 0 {
          assert Holds(State(), Indirect(k)) != 0;
          BmapFreeSub(din.indirect, index - NDIRECT);
        }
      }
    }

    /** sfs_bmap_truncate_nolock: the last block of a file goes back. */
    method BmapTruncate(k: nat)
      requires Valid() && k in inodes && inodes[k].blocks != 0
      modifies `buffer, `disk, `unused, `inodes, freemap.words
      ensures Valid() && Shrunk(old(State()), State(), k)
    {
      ghost var s := State();
      BmapFree(k, inodes[k].blocks - 1);
      ghost var s' := FreedIsShrunk(s, owner, k);
      DecrementBlocks(k);
      assert State() == s' && freemap.nbits == |disk|;
    }

    method DecrementBlocks(k: nat)
      requires k in inodes && inodes[k].blocks > 0
      modifies `inodes
      ensures State() == OneLess(old(State()), k)
    {
      inodes := inodes[k := inodes[k].(blocks := inodes[k].blocks - 1)];
    }

    method GrowTo(k: nat, tblks: nat) returns (ret: Ret)
      requires Valid() && k in inodes && inodes[k].blocks <= tblks
      modifies `buffer, `disk, `unused, `inodes, `owner, freemap.words
      ensures Valid() && Moved(old(State()), State(), k, 0, [], true)
      ensures ret == GrowCode(old(inodes[k]), |old(freemap.Free())|, tblks)
      ensures ret == Ok ==> inodes[k].blocks == tblks
      ensures ret == NoMem ==> |freemap.Free()| < Needed(inodes[k])
    {
      ghost var s := State();
      PaidNothing(s, owner, k);
      ret := Ok;
      var nblks := inodes[k].blocks;
      while nblks != tblks
        invariant Valid() && Moved(s, State(), k, 0, [], true) && k in inodes && ret == Ok
        invariant nblks == inodes[k].blocks <= tblks
      {
        ghost var mid := State();
        var ino;
        ret, ino := BmapLoad(k, nblks);
        if ret == NoMem {
          ReplaceThenUndo(s, mid, State(), k, 0, []);
        }
        if ret != Ok {
          GrowCodeIs(s.inodes[k], inodes[k], |s.free|, |freemap.Free()|, tblks, ret);
          return;
        }
        ReplaceThenGrow(s, mid, State(), k, 0, []);
        PaidMore(s.inodes[k], mid, State(), k, |s.free|);
        nblks := nblks + 1;
      }
      GrowCodeIs(s.inodes[k], inodes[k], |s.free|, |freemap.Free()|, tblks, ret);
    }

    method ShrinkTo(k: nat, tblks: nat)
      requires Valid() && k in inodes && tblks <= inodes[k].blocks
      modifies `buffer, `disk, `unused, `inodes, freemap.words
      ensures Valid() && Trimmed(old(State()), State(), k) && inodes[k].blocks == tblks
    {
      ghost var s := State();
      var nblks := inodes[k].blocks;
      while tblks != nblks
        invariant Valid() && Trimmed(s, State(), k) && k in inodes
        invariant tblks <= nblks == inodes[k].blocks
      {
        ghost var mid := State();
        BmapTruncate(k);
        TrimMore(s, mid, owner, k, State());
        ShrinkRole(mid, owner, k, State());
        nblks := nblks - 1;
      }
    }

    /** sfs_truncfile. */
    method TruncFile(k: nat, len: int) returns (ret: Ret)
      requires Valid() && k in inodes
      modifies `buffer, `disk, `unused, `inodes, `owner, freemap.words
      ensures Valid() && k in inodes
      ensures ret == TruncCode(old(inodes[k]), |old(freemap.Free())|, len)
      ensures ret == Inval || len == old(inodes[k].size) ==> State() == old(State())
      ensures ret != Inval && len != old(inodes[k].size) ==> Truncated(old(State()), State(), k, BlocksFor(len), ret)
      ensures inodes[k].size == if ret == Ok then len else old(inodes[k].size)
      ensures old(Sized(inodes[k])) ==>
                var common := Least(old(inodes[k].size), inodes[k].size);
                Sized(inodes[k]) && Contents(State(), k)[..common] == old(Contents(State(), k))[..common]
    {
      if len < 0 || len > MAX_FILE_SIZE {
        return Inval;
      }
      var tblks := BlocksFor(len);
      if inodes[k].size == len {
        ret := if tblks == inodes[k].blocks then Ok else Panic;
        return;
      }
      ghost var s := State();
      ret := ChangeBlocks(k, tblks);
      if ret == Ok {
        ResizeTruncated(s, State(), owner, k, tblks, len);
        SetLength(k, len);
      }
      KeptTruncated(s, State(), k, tblks, ret);
    }

    method SetLength(k: nat, len: nat)
      requires Valid() && k in inodes && Inv(Resized(State(), k, len), owner)
      modifies `inodes
      ensures Valid() && State() == Resized(old(State()), k, len)
    {
      ghost var s' := Resized(State(), k, len);
      inodes := inodes[k := inodes[k].(size := len)];
      assert State() == s';
    }

    method ChangeBlocks(k: nat, tblks: nat) returns (ret: Ret)
      requires Valid() && k in inodes
      modifies `buffer, `disk, `unused, `inodes, `owner, freemap.words
      ensures Valid() && k in inodes && inodes[k].size == old(inodes[k].size)
      ensures ret == GrowCode(old(inodes[k]), |old(freemap.Free())|, tblks)
      ensures Truncated(old(State()), State(), k, tblks, ret)
    {
      PaidNothing(State(), owner, k);
      SameSize(State(), k);
      ret := Ok;
      if inodes[k].blocks < tblks {
        ret := GrowTo(k, tblks);
      } else if tblks < inodes[k].blocks {
        ShrinkTo(k, tblks);
        SameSize(State(), k);
      }
    }

    /** The release of blocks in sfs_reclaim, for a file without links. */
    method Reclaim(k: nat) returns (ret: Ret)
      requires Valid() && k in inodes
      modifies `buffer, `disk, `unused, `inodes, `owner, freemap.words
      ensures Valid()
      ensures ret == Ok <==> old(inodes[k].size) > 0 || old(inodes[k].blocks) == 0
      ensures ret != Ok ==> ret == Panic && State() == old(State())
      ensures ret == Ok ==>
                var n := old(inodes[k]);
                && inodes == old(inodes) - {k} && KeepsBytes(State(), old(State()))
                && freemap.Free() == old(freemap.Free() + BlocksOf(State(), k))
                && |freemap.Free()| == |old(freemap.Free())| + n.blocks + 1 + (if n.indirect != 0 then 1 else 0)
    {
      ghost var s := State();
      ret := TruncFile(k, 0);
      if ret != Ok {
        return;
      }
      TrimmedToNothing(s, State(), k);
      TrimThenRemove(s, State(), owner, k);
      ReleaseInode(k);
    }

    method ReleaseInode(k: nat)
      requires Valid() && k in inodes && inodes[k].blocks == 0
      modifies `unused, `inodes, freemap.words
      ensures Valid() && State() == Removed(old(State()), k)
    {
      RemoveKeepsInv(State(), owner, k);
      var ent := inodes[k].indirect;
      BlockFree(k);
      if ent != 0 {
        BlockFree(ent);
      }
      inodes := inodes - {k};
    }
  }

  lemma ReadSlice(s: Fs, k: nat, offset: nat, len: nat, data: seq<byte>)
    requires Moved(s, s, k, offset, data, false) && Sized(s.inodes[k])
    requires var end := EndOf(s.inodes[k], offset, len, false); |data| == if offset < end then end - offset else 0
    ensures data == Slice(Contents(s, k), offset, Least(offset + len, MAX_FILE_SIZE))
  {
    if data != [] {
      ReadContents(s, s, k, offset, data);
    }
  }

  lemma WroteContents(s: Fs, s': Fs, k: nat, at: nat, data: seq<byte>, ret: Ret)
    requires Replaced(s, s', k, at, data) && Sized(s.inodes[k])
    requires s'.inodes[k].size == if ret != Panic && at + |data| > s.inodes[k].size then at + |data| else s.inodes[k].size
    ensures ret != Panic && Sized(s'.inodes[k]) ==> Contents(s', k) == WrittenContents(s, k, at, data)
    ensures at <= s.inodes[k].size ==> WrittenContents(s, k, at, data) == Spliced(Contents(s, k), at, data)
  {
    if ret != Panic && Sized(s'.inodes[k]) {
      ReplacedContents(s, s', k, at, data);
    }
    if at <= s.inodes[k].size {
      WrittenWithin(s, k, at, data);
    }
  }

  /** How sfs_truncfile ends. */
  function TruncCode(n: Inode, free: nat, len: int): Ret {
    if len < 0 || len > MAX_FILE_SIZE then Inval
    else if len == n.size then if BlocksFor(len) == n.blocks then Ok else Panic
    else GrowCode(n, free, BlocksFor(len))
  }

  /** What it does to the blocks of file k: the ones cut off are free, the ones added are
      zeros, as many as there are blocks for, and nothing else changes. */
  ghost predicate Truncated(s: Fs, s': Fs, k: nat, t: nat, ret: Ret) {
    && k in s.inodes && k in s'.inodes && (ret == Ok ==> s'.inodes[k].blocks == t)
    && (t == s.inodes[k].blocks ==> s' == Resized(s, k, s'.inodes[k].size))
    && if t < s.inodes[k].blocks then Trimmed(s, Resized(s', k, s.inodes[k].size), k)
       else
         && Replaced(s, s', k, 0, []) && Paid(s.inodes[k], s'.inodes[k], |s.free|, |s'.free|)
         && (ret == NoMem ==> |s'.free| < Needed(s'.inodes[k]))
  }

  lemma KeptTruncated(s: Fs, s': Fs, k: nat, t: nat, ret: Ret)
    requires Shape(s) && Shape(s') && Truncated(s, s', k, t, ret)
    requires if ret == Ok then s'.inodes[k].size <= t * BLKSIZE else s'.inodes[k].size == s.inodes[k].size && t >= s.inodes[k].blocks
    ensures Sized(s.inodes[k]) ==>
              var common := Least(s.inodes[k].size, s'.inodes[k].size);
              Sized(s'.inodes[k]) && Contents(s', k)[..common] == Contents(s, k)[..common]
  {
    if Sized(s.inodes[k]) {
      KeptContents(s, s', k, Least(s.inodes[k].size, s'.inodes[k].size));
    }
  }

  lemma TrimmedToNothing(s: Fs, s': Fs, k: nat)
    requires Shape(s) && k in s.inodes && if s.inodes[k].size == 0 then s' == s else Truncated(s, s', k, 0, Ok)
    ensures s' == s || (k in s'.inodes && Trimmed(s, Resized(s', k, s.inodes[k].size), k))
  {
    if s.inodes[k].size != 0 && s.inodes[k].blocks == 0 {
      assert Resized(s', k, s.inodes[k].size) == s by {
        SameSize(s, k);
      }
      assert BlocksFrom(s, k, 0) == {};
    }
  }

  lemma SameSize(s: Fs, k: nat)
    requires k in s.inodes
    ensures Resized(s, k, s.inodes[k].size) == s
  {
    assert s.inodes[k := s.inodes[k]] == s.inodes;
  }

  lemma ResizeTwice(s: Fs, k: nat, len: nat, len': nat)
    requires k in s.inodes
    ensures Resized(Resized(s, k, len), k, len') == Resized(s, k, len')
  {
    var n := s.inodes[k];
    assert s.inodes[k := n.(size := len)][k := n.(size := len')] == s.inodes[k := n.(size := len')];
  }

  lemma ResizeTruncated(s: Fs, s': Fs, owner: map<nat, Role>, k: nat, t: nat, len: nat)
    requires Truncated(s, s', k, t, Ok) && Inv(s', owner)
    ensures Truncated(s, Resized(s', k, len), k, t, Ok) && Inv(Resized(s', k, len), owner)
  {
    ResizeIsHarmless(s', owner, k, len);
    if t < s.inodes[k].blocks {
      ResizeTwice(s', k, len, s.inodes[k].size);
    } else {
      ReplaceThenResize(s, s', owner, k, 0, [], len);
    }
  }

  /** Everything before block blkno has been moved; only blocks the file has can
      have been passed. */
  ghost predicate Aligned(s: Fs, s': Fs, k: nat, at: nat, data: seq<byte>, buf: seq<byte>, write: bool, blkno: nat) {
    && Moved(s, s', k, at, data, write) && Carried(data, buf, write)
    && at + |data| == blkno * BLKSIZE
    && (data == [] ==> s' == s)
    && (data != [] ==> at / BLKSIZE <= s.inodes[k].blocks && k in s'.inodes && blkno <= s'.inodes[k].blocks)
  }

  /** The part of the caller's buffer that is written next. */
  function Chunk(buf: seq<byte>, from: nat, size: nat, write: bool): (c: seq<byte>)
    requires write ==> from + size <= |buf|
  {
    if write then buf[from..from + size] else []
  }

  ghost predicate Carried(data: seq<byte>, buf: seq<byte>, write: bool) {
    write ==> |data| <= |buf| && data == buf[..|data|]
  }

  lemma CarryMore(data: seq<byte>, moved: seq<byte>, buf: seq<byte>, write: bool)
    requires Carried(data, buf, write) && (write ==> |data| + |moved| <= |buf| && moved == buf[|data|..|data| + |moved|])
    ensures Carried(data + moved, buf, write)
  {
  }

  lemma EndOfBlock(i: nat, endpos: nat)
    requires i < endpos / BLKSIZE
    ensures (i + 1) * BLKSIZE <= endpos
  {
  }

  ghost function Freed(s: Fs, k: nat, index: nat): Fs
    requires Shape(s) && k in s.inodes
  {
    var n, b := s.inodes[k], Holds(s, Data(k, index));
    if b == 0 then s
    else if index < NDIRECT then Given(s, b).(inodes := s.inodes[k := n.(direct := n.direct[index := 0])])
    else Entered(Given(s, b), n.indirect, index - NDIRECT, 0)
  }

  ghost function OneLess(s: Fs, k: nat): Fs
    requires k in s.inodes && s.inodes[k].blocks > 0
  {
    s.(inodes := s.inodes[k := s.inodes[k].(blocks := s.inodes[k].blocks - 1)])
  }

  lemma FreedIsShrunk(s: Fs, owner: map<nat, Role>, k: nat) returns (s': Fs)
    requires Inv(s, owner) && k in s.inodes && s.inodes[k].blocks != 0
    ensures var s1 := Freed(s, k, s.inodes[k].blocks - 1);
            k in s1.inodes && s1.inodes[k].blocks > 0 && s' == OneLess(s1, k)
    ensures Shrunk(s, s', k) && Inv(s', owner)
    ensures |s'.disk| == |s.disk| && Shape(s') && s'.unused == |s'.free| && 0 !in s'.free
  {
    assert Holds(s, Data(k, s.inodes[k].blocks - 1)) != 0;
    s' := OneLess(Freed(s, k, s.inodes[k].blocks - 1), k);
    ShrinkKeepsInv(s, owner, k, s');
  }

  /** A file of size zero that has blocks: enlarging an empty file fails halfway, and then
      the file can no longer be reclaimed. */
  method FailedGrowthBlocksReclaim(fs: Sfs, k: nat, len: nat) returns (grown: Ret, reclaimed: Ret)
    requires fs.Valid() && k in fs.inodes && fs.inodes[k].size == fs.inodes[k].blocks == 0 && 0 < len <= MAX_BLOCKS * BLKSIZE
    requires 0 < |fs.freemap.Free()| < Cost(fs.inodes[k], BlocksFor(len))
    modifies fs, fs.freemap.words
    ensures grown == NoMem && reclaimed == Panic && fs.Valid()
    ensures k in fs.inodes && fs.inodes[k].size == 0 && 0 < fs.inodes[k].blocks < BlocksFor(len)
  {
    grown := fs.TruncFile(k, len);
    reclaimed := fs.Reclaim(k);
  }

  /** Such a file: two blocks are asked for, and one is free. */
  lemma GrowthCanFail()
    ensures Inv(SmallDisk(1), map[1 := Self(1)]) && 0 < |SmallDisk(1).free| < Cost(EmptyFile(), BlocksFor(2 * BLKSIZE))
  {
    SmallDiskIsSound(1);
  }
}
