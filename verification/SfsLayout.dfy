/** How SFS lays files out on a disk of blocks (kern/fs/sfs/sfs.h, sfs_inode.c):
    inodes with direct blocks and one block of indirect entries, a set of free
    blocks, and who owns which block. */
module SfsLayout {
  import opened Wrappers

  const BLKSIZE := 4096
  const NDIRECT := 12
  const NENTRY := 1024                    // 4-byte entries in a block
  const MAX_BLOCKS := NDIRECT + NENTRY

  type Block = seq<byte>

  // ---------- 32-bit little-endian words in a block ----------

  function Encode(n: nat): (b: seq<byte>)
    requires n < 0x1_0000_0000
    ensures |b| == 4
  {
    [(n % 256) as byte, (n / 256 % 256) as byte, (n / 65536 % 256) as byte, (n / 16777216) as byte]
  }

  function Decode(b: seq<byte>): nat
    requires |b| == 4
  {
    b[0] as int + 256 * b[1] as int + 65536 * b[2] as int + 16777216 * b[3] as int
  }

  lemma DecodeEncode(n: nat)
    requires n < 0x1_0000_0000
    ensures Decode(Encode(n)) == n
  {
    assert n / 256 == n / 65536 * 256 + n / 256 % 256;
    assert n / 65536 == n / 16777216 * 256 + n / 65536 % 256;
  }

  function Entry(b: Block, i: nat): nat
    requires |b| == BLKSIZE && i < NENTRY
  {
    Decode(b[4 * i..4 * i + 4])
  }

  function Zeros(): (b: Block)
    ensures |b| == BLKSIZE && forall j :: 0 <= j < BLKSIZE ==> b[j] == 0
  {
    seq(BLKSIZE, i => 0)
  }

  lemma ZeroEntry(i: nat)
    requires i < NENTRY
    ensures Entry(Zeros(), i) == 0
  {
  }

  function PutEntry(b: Block, i: nat, n: nat): (r: Block)
    requires |b| == BLKSIZE && i < NENTRY && n < 0x1_0000_0000
    ensures |r| == BLKSIZE
  {
    Put(b, 4 * i, Encode(n))
  }

  lemma EntryAfterPut(b: Block, i: nat, n: nat, j: nat)
    requires |b| == BLKSIZE && i < NENTRY && j < NENTRY && n < 0x1_0000_0000
    ensures Entry(PutEntry(b, i, n), j) == if j == i then n else Entry(b, j)
  {
    var r := PutEntry(b, i, n);
    if j == i {
      assert r[4 * i..4 * i + 4] == Encode(n);
      DecodeEncode(n);
    } else {
      assert r[4 * j..4 * j + 4] == b[4 * j..4 * j + 4];
    }
  }

  // ---------- the file system ----------

  /** An inode: file size in bytes, number of blocks, direct blocks, indirect block. */
  datatype Inode = Inode(size: nat, blocks: nat, direct: seq<nat>, indirect: nat)

  datatype Fs = Fs(disk: seq<Block>, free: set<nat>, unused: int, inodes: map<nat, Inode>)

  /** What a block can be used for. */
  datatype Role = Self(ino: nat) | Indirect(ino: nat) | Data(ino: nat, i: nat)

  ghost predicate Shape(fs: Fs) {
    && |fs.disk| < 0x1_0000_0000
    && (forall b :: 0 <= b < |fs.disk| ==> |fs.disk[b]| == BLKSIZE)
    && (forall k :: k in fs.inodes ==> |fs.inodes[k].direct| == NDIRECT && fs.inodes[k].indirect < |fs.disk|)
  }

  /** The block used in a role, 0 for none. */
  ghost function Holds(fs: Fs, r: Role): nat
    requires Shape(fs) && r.ino in fs.inodes
  {
    var n := fs.inodes[r.ino];
    match r
    case Self(k) => k
    case Indirect(_) => n.indirect
    case Data(_, i) =>
      if i < NDIRECT then n.direct[i]
      else if i < MAX_BLOCKS && n.indirect != 0 then Entry(fs.disk[n.indirect], i - NDIRECT)
      else 0
  }

  /** A block in use: neither the superblock nor free. */
  ghost predicate InUse(fs: Fs, b: nat) {
    0 < b < |fs.disk| && b !in fs.free
  }

  /** Every block in a role is in use and knows its only role. */
  ghost predicate Owned(fs: Fs, owner: map<nat, Role>)
    requires Shape(fs)
  {
    forall r: Role :: r.ino in fs.inodes && Holds(fs, r) != 0 ==>
      InUse(fs, Holds(fs, r)) && Holds(fs, r) in owner && owner[Holds(fs, r)] == r
  }

  /** Index i is mapped exactly if it is below the number of blocks. */
  ghost predicate Dense(fs: Fs)
    requires Shape(fs)
  {
    forall k, i: nat :: k in fs.inodes ==> (Holds(fs, Data(k, i)) != 0 <==> i < fs.inodes[k].blocks)
  }

  ghost predicate Counted(fs: Fs) {
    && fs.unused == |fs.free|
    && (forall b :: b in fs.free ==> 0 < b < |fs.disk|)
    && (forall k :: k in fs.inodes ==> k != 0 && fs.inodes[k].blocks <= MAX_BLOCKS)
  }

  ghost predicate Inv(fs: Fs, owner: map<nat, Role>) {
    Shape(fs) && Owned(fs, owner) && Dense(fs) && Counted(fs)
  }

  /** The bytes of a file lie in its blocks. */
  ghost predicate Sized(n: Inode) {
    n.size <= n.blocks * BLKSIZE
  }

  /** Blocks in different roles are different. */
  lemma RolesApart(fs: Fs, owner: map<nat, Role>, r: Role, q: Role)
    requires Inv(fs, owner) && r.ino in fs.inodes && q.ino in fs.inodes && r != q && Holds(fs, r) != 0
    ensures Holds(fs, r) != Holds(fs, q)
  {
  }

  // ---------- bytes of a file ----------

  ghost predicate HasByte(fs: Fs, k: nat, j: nat) {
    k in fs.inodes && j < fs.inodes[k].blocks * BLKSIZE
  }

  /** Byte j of the blocks of file k. */
  ghost function ByteAt(fs: Fs, k: nat, j: nat): byte
    requires Shape(fs) && k in fs.inodes
  {
    var b := Holds(fs, Data(k, j / BLKSIZE));
    if b < |fs.disk| then fs.disk[b][j % BLKSIZE] else 0
  }

  /** No file has lost or changed a byte. */
  ghost predicate KeepsBytes(fs: Fs, fs': Fs)
    requires Shape(fs) && Shape(fs')
  {
    forall k: nat, j: nat :: HasByte(fs, k, j) ==> HasByte(fs', k, j) && ByteAt(fs', k, j) == ByteAt(fs, k, j)
  }

  // ---------- taking and giving back blocks ----------

  /** sfs_block_alloc of block b: marked in use and cleared. */
  ghost function Taken(fs: Fs, b: nat): Fs
    requires b < |fs.disk|
  {
    fs.(free := fs.free - {b}, unused := fs.unused - 1, disk := fs.disk[b := Zeros()])
  }

  /** A block in use that nothing refers to yet. */
  ghost predicate Loose(fs: Fs, b: nat)
    requires Shape(fs)
  {
    InUse(fs, b) && forall r: Role :: r.ino in fs.inodes ==> Holds(fs, r) != b
  }

  /** Rewriting a block that holds no indirect entries moves nothing. */
  lemma HoldsDependsOnTables(fs: Fs, fs': Fs, r: Role)
    requires Shape(fs) && Shape(fs') && fs'.inodes == fs.inodes && |fs'.disk| == |fs.disk| && r.ino in fs.inodes
    requires fs'.disk[fs.inodes[r.ino].indirect] == fs.disk[fs.inodes[r.ino].indirect]
    ensures Holds(fs', r) == Holds(fs, r)
  {
  }

  lemma TakeKeepsHolds(fs: Fs, owner: map<nat, Role>, b: nat, r: Role)
    requires Inv(fs, owner) && b in fs.free && r.ino in fs.inodes
    ensures Shape(Taken(fs, b)) && Holds(Taken(fs, b), r) == Holds(fs, r) && Holds(fs, r) != b
  {
    assert Holds(fs, Indirect(r.ino)) != b;
    var i := fs.inodes[r.ino].indirect;
    if i != 0 {
      HoldsDependsOnTables(fs, Taken(fs, b), r);
    }
  }

  lemma TakeKeepsInv(fs: Fs, owner: map<nat, Role>, b: nat)
    requires Inv(fs, owner) && b in fs.free
    ensures Inv(Taken(fs, b), owner) && Loose(Taken(fs, b), b) && Taken(fs, b).disk[b] == Zeros()
  {
    var fs' := Taken(fs, b);
    forall r: Role | r.ino in fs.inodes ensures Holds(fs', r) == Holds(fs, r) && Holds(fs, r) != b {
      TakeKeepsHolds(fs, owner, b, r);
    }
  }

  lemma TakeKeepsBytes(fs: Fs, owner: map<nat, Role>, b: nat)
    requires Inv(fs, owner) && b in fs.free
    ensures Shape(Taken(fs, b)) && KeepsBytes(fs, Taken(fs, b))
  {
    forall k: nat, j: nat | HasByte(fs, k, j) ensures ByteAt(Taken(fs, b), k, j) == ByteAt(fs, k, j) {
      TakeKeepsHolds(fs, owner, b, Data(k, j / BLKSIZE));
    }
  }

  /** sfs_block_free. */
  ghost function Given(fs: Fs, b: nat): Fs {
    fs.(free := fs.free + {b}, unused := fs.unused + 1)
  }

  lemma GiveKeepsInv(fs: Fs, owner: map<nat, Role>, b: nat)
    requires Inv(fs, owner) && Loose(fs, b)
    ensures Inv(Given(fs, b), owner)
    ensures KeepsBytes(fs, Given(fs, b)) && KeepsBytes(Given(fs, b), fs)
  {
    var fs' := Given(fs, b);
    forall r: Role | r.ino in fs.inodes ensures Holds(fs', r) == Holds(fs, r) && Holds(fs, r) != b {
    }
  }

  // ---------- growing a file by one block ----------

  /** A cleared loose block becomes the indirect block of file k. */
  ghost function WithTable(fs: Fs, k: nat, e: nat): Fs
    requires k in fs.inodes
  {
    fs.(inodes := fs.inodes[k := fs.inodes[k].(indirect := e)])
  }

  /** Block b becomes block number `blocks` of file k. */
  ghost function GrownDirect(fs: Fs, k: nat, b: nat): Fs
    requires k in fs.inodes && fs.inodes[k].blocks < |fs.inodes[k].direct|
  {
    var n := fs.inodes[k];
    fs.(inodes := fs.inodes[k := n.(direct := n.direct[n.blocks := b], blocks := n.blocks + 1)])
  }

  ghost function GrownIndirect(fs: Fs, k: nat, b: nat): Fs
    requires Shape(fs) && k in fs.inodes && b < |fs.disk|
    requires NDIRECT <= fs.inodes[k].blocks < MAX_BLOCKS && fs.inodes[k].indirect != 0
  {
    var n := fs.inodes[k];
    fs.(disk := fs.disk[n.indirect := PutEntry(fs.disk[n.indirect], n.blocks - NDIRECT, b)],
        inodes := fs.inodes[k := n.(blocks := n.blocks + 1)])
  }

  /** fs' has the roles of fs, except that b plays role q. */
  ghost predicate OnlyRole(fs: Fs, fs': Fs, q: Role, b: nat)
    requires Shape(fs) && Shape(fs')
  {
    && fs'.inodes.Keys == fs.inodes.Keys
    && forall r: Role :: r.ino in fs.inodes ==> Holds(fs', r) == if r == q then b else Holds(fs, r)
  }

  lemma TableRole(fs: Fs, owner: map<nat, Role>, k: nat, e: nat)
    requires Inv(fs, owner) && k in fs.inodes && fs.inodes[k].indirect == 0 && Loose(fs, e) && fs.disk[e] == Zeros()
    ensures Shape(WithTable(fs, k, e)) && OnlyRole(fs, WithTable(fs, k, e), Indirect(k), e)
  {
    var fs' := WithTable(fs, k, e);
    forall r: Role | r.ino in fs.inodes ensures Holds(fs', r) == if r == Indirect(k) then e else Holds(fs, r) {
      if r.Data? && r.ino == k && NDIRECT <= r.i < MAX_BLOCKS {
        ZeroEntry(r.i - NDIRECT);
      }
    }
  }

  lemma DirectRole(fs: Fs, owner: map<nat, Role>, k: nat, b: nat)
    requires Inv(fs, owner) && k in fs.inodes && fs.inodes[k].blocks < NDIRECT
    ensures Shape(GrownDirect(fs, k, b)) && OnlyRole(fs, GrownDirect(fs, k, b), Data(k, fs.inodes[k].blocks), b)
  {
  }

  lemma IndirectRole(fs: Fs, owner: map<nat, Role>, k: nat, b: nat)
    requires Inv(fs, owner) && k in fs.inodes && b < |fs.disk|
    requires NDIRECT <= fs.inodes[k].blocks < MAX_BLOCKS && fs.inodes[k].indirect != 0
    ensures Shape(GrownIndirect(fs, k, b)) && OnlyRole(fs, GrownIndirect(fs, k, b), Data(k, fs.inodes[k].blocks), b)
  {
    var fs', n := GrownIndirect(fs, k, b), fs.inodes[k];
    forall r: Role | r.ino in fs.inodes ensures Holds(fs', r) == if r == Data(k, n.blocks) then b else Holds(fs, r) {
      EntryRole(fs, owner, k, n.blocks, b, fs', r);
    }
  }

  /** A new entry in the table of file k changes one role only. */
  lemma EntryRole(fs: Fs, owner: map<nat, Role>, k: nat, i: nat, x: nat, fs': Fs, r: Role)
    requires Inv(fs, owner) && k in fs.inodes && NDIRECT <= i < MAX_BLOCKS && fs.inodes[k].indirect != 0 && x < 0x1_0000_0000
    requires Shape(fs') && r.ino in fs.inodes && r.ino in fs'.inodes
    requires var t := fs.inodes[k].indirect; fs'.disk == fs.disk[t := PutEntry(fs.disk[t], i - NDIRECT, x)]
    requires fs'.inodes[r.ino].direct == fs.inodes[r.ino].direct && fs'.inodes[r.ino].indirect == fs.inodes[r.ino].indirect
    ensures Holds(fs', r) == if r == Data(k, i) then x else Holds(fs, r)
  {
    if r.Data? && NDIRECT <= r.i < MAX_BLOCKS {
      if r.ino == k {
        EntryAfterPut(fs.disk[fs.inodes[k].indirect], i - NDIRECT, x, r.i - NDIRECT);
      } else if fs.inodes[r.ino].indirect != 0 {
        RolesApart(fs, owner, Indirect(r.ino), Indirect(k));
      }
    }
  }

  /** A loose block gets a role that was empty. */
  lemma RoleKeepsOwned(fs: Fs, owner: map<nat, Role>, fs': Fs, q: Role, b: nat)
    requires Shape(fs) && Owned(fs, owner) && Loose(fs, b) && Shape(fs') && OnlyRole(fs, fs', q, b)
    requires fs'.free == fs.free && |fs'.disk| == |fs.disk|
    ensures Owned(fs', owner[b := q])
  {
  }

  lemma TableKeepsInv(fs: Fs, owner: map<nat, Role>, k: nat, e: nat)
    requires Inv(fs, owner) && k in fs.inodes && fs.inodes[k].indirect == 0 && Loose(fs, e) && fs.disk[e] == Zeros()
    ensures Inv(WithTable(fs, k, e), owner[e := Indirect(k)]) && KeepsBytes(fs, WithTable(fs, k, e))
    ensures forall b :: Loose(fs, b) && b != e ==> Loose(WithTable(fs, k, e), b)
  {
    TableRole(fs, owner, k, e);
    RoleKeepsOwned(fs, owner, WithTable(fs, k, e), Indirect(k), e);
  }

  lemma TakeKeepsLoose(fs: Fs, owner: map<nat, Role>, e: nat, b: nat)
    requires Inv(fs, owner) && Loose(fs, e) && b in fs.free
    ensures Shape(Taken(fs, b)) && Loose(Taken(fs, b), e) && Taken(fs, b).disk[e] == fs.disk[e]
  {
    forall r: Role | r.ino in fs.inodes ensures Holds(Taken(fs, b), r) == Holds(fs, r) {
      TakeKeepsHolds(fs, owner, b, r);
    }
    TakeKeepsInv(fs, owner, b);
  }

  /** fs' is fs with block b appended to file k, directly or through its table. */
  ghost predicate Appended(fs: Fs, fs': Fs, k: nat, b: nat) {
    && Shape(fs) && k in fs.inodes && b < |fs.disk|
    && var n := fs.inodes[k];
       || (n.blocks < NDIRECT && fs' == GrownDirect(fs, k, b))
       || (NDIRECT <= n.blocks < MAX_BLOCKS && n.indirect != 0 && fs' == GrownIndirect(fs, k, b))
  }

  lemma AppendRole(fs: Fs, owner: map<nat, Role>, k: nat, b: nat, fs': Fs)
    requires Inv(fs, owner) && Appended(fs, fs', k, b)
    ensures Shape(fs') && OnlyRole(fs, fs', Data(k, fs.inodes[k].blocks), b)
    ensures fs'.free == fs.free && fs'.unused == fs.unused && |fs'.disk| == |fs.disk|
    ensures fs'.inodes.Keys == fs.inodes.Keys && fs'.inodes[k].blocks == fs.inodes[k].blocks + 1
    ensures fs'.inodes[k].size == fs.inodes[k].size && fs'.inodes[k].indirect == fs.inodes[k].indirect
    ensures forall l :: l in fs.inodes && l != k ==> fs'.inodes[l] == fs.inodes[l]
    ensures forall c :: 0 <= c < |fs.disk| && (c == 0 || c != fs.inodes[k].indirect) ==> fs'.disk[c] == fs.disk[c]
  {
    if fs.inodes[k].blocks < NDIRECT {
      DirectRole(fs, owner, k, b);
    } else {
      IndirectRole(fs, owner, k, b);
    }
  }

  lemma AppendKeepsInv(fs: Fs, owner: map<nat, Role>, k: nat, b: nat, fs': Fs)
    requires Inv(fs, owner) && Appended(fs, fs', k, b) && Loose(fs, b)
    ensures Inv(fs', owner[b := Data(k, fs.inodes[k].blocks)])
  {
    AppendRole(fs, owner, k, b, fs');
    RoleKeepsOwned(fs, owner, fs', Data(k, fs.inodes[k].blocks), b);
  }

  /** Data blocks are not tables. */
  lemma DataIsNoTable(fs: Fs, owner: map<nat, Role>, k: nat, i: nat, l: nat)
    requires Inv(fs, owner) && k in fs.inodes && l in fs.inodes && i < fs.inodes[k].blocks
    ensures 0 < Holds(fs, Data(k, i)) < |fs.disk| && Holds(fs, Data(k, i)) != fs.inodes[l].indirect
  {
    RolesApart(fs, owner, Data(k, i), Indirect(l));
  }

  lemma AppendKeepsBytes(fs: Fs, owner: map<nat, Role>, k: nat, b: nat, fs': Fs)
    requires Inv(fs, owner) && Appended(fs, fs', k, b)
    ensures Shape(fs') && KeepsBytes(fs, fs')
  {
    AppendRole(fs, owner, k, b, fs');
    forall l: nat, j: nat | HasByte(fs, l, j) ensures HasByte(fs', l, j) && ByteAt(fs', l, j) == ByteAt(fs, l, j) {
      var i := j / BLKSIZE;
      assert i < fs.inodes[l].blocks;
      DataIsNoTable(fs, owner, l, i, k);
      assert Holds(fs', Data(l, i)) == Holds(fs, Data(l, i));
    }
  }

  /** A new block starts out as zeros. */
  lemma AppendIsZero(fs: Fs, owner: map<nat, Role>, k: nat, b: nat, fs': Fs, j: nat)
    requires Inv(fs, owner) && Appended(fs, fs', k, b) && Loose(fs, b) && fs.disk[b] == Zeros()
    requires j / BLKSIZE == fs.inodes[k].blocks
    ensures Shape(fs') && k in fs'.inodes && ByteAt(fs', k, j) == 0
  {
    AppendRole(fs, owner, k, b, fs');
    assert Holds(fs, Indirect(k)) != b;
  }

  // ---------- shrinking a file by one block ----------

  ghost function ShrunkDirect(fs: Fs, k: nat): Fs
    requires Shape(fs) && k in fs.inodes && 0 < fs.inodes[k].blocks <= NDIRECT
  {
    var n := fs.inodes[k];
    Given(fs, n.direct[n.blocks - 1]).(
      inodes := fs.inodes[k := n.(direct := n.direct[n.blocks - 1 := 0], blocks := n.blocks - 1)])
  }

  ghost function ShrunkIndirect(fs: Fs, k: nat): Fs
    requires Shape(fs) && k in fs.inodes && NDIRECT < fs.inodes[k].blocks <= MAX_BLOCKS && fs.inodes[k].indirect != 0
  {
    var n := fs.inodes[k];
    var i := n.blocks - 1 - NDIRECT;
    Given(fs, Entry(fs.disk[n.indirect], i)).(
      disk := fs.disk[n.indirect := PutEntry(fs.disk[n.indirect], i, 0)],
      inodes := fs.inodes[k := n.(blocks := n.blocks - 1)])
  }

  /** fs' is fs without the last block of file k. */
  ghost predicate Shrunk(fs: Fs, fs': Fs, k: nat) {
    && Shape(fs) && k in fs.inodes
    && var n := fs.inodes[k];
       || (0 < n.blocks <= NDIRECT && fs' == ShrunkDirect(fs, k))
       || (NDIRECT < n.blocks <= MAX_BLOCKS && n.indirect != 0 && fs' == ShrunkIndirect(fs, k))
  }

  lemma ShrinkRole(fs: Fs, owner: map<nat, Role>, k: nat, fs': Fs)
    requires Inv(fs, owner) && Shrunk(fs, fs', k)
    ensures Shape(fs') && OnlyRole(fs, fs', Data(k, fs.inodes[k].blocks - 1), 0)
    ensures fs'.inodes.Keys == fs.inodes.Keys && fs'.inodes[k].blocks == fs.inodes[k].blocks - 1
    ensures fs'.inodes[k].size == fs.inodes[k].size && fs'.inodes[k].indirect == fs.inodes[k].indirect
    ensures forall l :: l in fs.inodes && l != k ==> fs'.inodes[l] == fs.inodes[l]
    ensures fs'.free == fs.free + {Holds(fs, Data(k, fs.inodes[k].blocks - 1))} && fs'.unused == fs.unused + 1
    ensures |fs'.disk| == |fs.disk|
    ensures forall c :: 0 <= c < |fs.disk| && (c == 0 || c != fs.inodes[k].indirect) ==> fs'.disk[c] == fs.disk[c]
  {
    var n := fs.inodes[k];
    if n.blocks > NDIRECT {
      ShrinkIndirectRole(fs, owner, k);
    }
  }

  lemma ShrinkIndirectRole(fs: Fs, owner: map<nat, Role>, k: nat)
    requires Inv(fs, owner) && k in fs.inodes && NDIRECT < fs.inodes[k].blocks <= MAX_BLOCKS && fs.inodes[k].indirect != 0
    ensures Shape(ShrunkIndirect(fs, k)) && OnlyRole(fs, ShrunkIndirect(fs, k), Data(k, fs.inodes[k].blocks - 1), 0)
  {
    var fs', n := ShrunkIndirect(fs, k), fs.inodes[k];
    forall r: Role | r.ino in fs.inodes ensures Holds(fs', r) == if r == Data(k, n.blocks - 1) then 0 else Holds(fs, r) {
      EntryRole(fs, owner, k, n.blocks - 1, 0, fs', r);
    }
  }

  lemma ShrinkKeepsInv(fs: Fs, owner: map<nat, Role>, k: nat, fs': Fs)
    requires Inv(fs, owner) && Shrunk(fs, fs', k)
    ensures Inv(fs', owner)
  {
    ShrinkRole(fs, owner, k, fs');
    var q := Data(k, fs.inodes[k].blocks - 1);
    forall r: Role | r.ino in fs'.inodes && Holds(fs', r) != 0
      ensures InUse(fs', Holds(fs', r)) && Holds(fs', r) in owner && owner[Holds(fs', r)] == r
    {
      RolesApart(fs, owner, q, r);
    }
  }

  /** Everything but the last block keeps its bytes. */
  lemma ShrinkKeepsBytes(fs: Fs, owner: map<nat, Role>, k: nat, fs': Fs)
    requires Inv(fs, owner) && Shrunk(fs, fs', k)
    ensures Shape(fs') && KeepsBytes(fs', fs)
  {
    ShrinkRole(fs, owner, k, fs');
    forall l: nat, j: nat | HasByte(fs', l, j) ensures HasByte(fs, l, j) && ByteAt(fs, l, j) == ByteAt(fs', l, j) {
      var i := j / BLKSIZE;
      assert i < fs'.inodes[l].blocks;
      DataIsNoTable(fs, owner, l, i, k);
      assert Holds(fs', Data(l, i)) == Holds(fs, Data(l, i));
    }
  }

  // ---------- writing into a block of a file ----------

  ghost function Written(fs: Fs, b: nat, off: nat, data: seq<byte>): Fs
    requires b < |fs.disk| && off + |data| <= |fs.disk[b]|
  {
    fs.(disk := fs.disk[b := Put(fs.disk[b], off, data)])
  }

  lemma WriteKeepsHolds(fs: Fs, owner: map<nat, Role>, k: nat, i: nat, off: nat, data: seq<byte>)
    requires Inv(fs, owner) && k in fs.inodes && i < fs.inodes[k].blocks && off + |data| <= BLKSIZE
    ensures var b := Holds(fs, Data(k, i));
            && 0 < b < |fs.disk| && Shape(Written(fs, b, off, data))
            && forall r: Role :: r.ino in fs.inodes ==> Holds(Written(fs, b, off, data), r) == Holds(fs, r)
  {
    var b := Holds(fs, Data(k, i));
    DataIsNoTable(fs, owner, k, i, k);
    var fs' := Written(fs, b, off, data);
    forall r: Role | r.ino in fs.inodes ensures Holds(fs', r) == Holds(fs, r) {
      DataIsNoTable(fs, owner, k, i, r.ino);
      HoldsDependsOnTables(fs, fs', r);
    }
  }

  /** Only the addressed bytes of file k change; every other byte of every file
      stays. */
  lemma WriteIsLocal(fs: Fs, owner: map<nat, Role>, k: nat, i: nat, off: nat, data: seq<byte>)
    requires Inv(fs, owner) && k in fs.inodes && i < fs.inodes[k].blocks && off + |data| <= BLKSIZE
    ensures var b := Holds(fs, Data(k, i)); var at := i * BLKSIZE + off;
            && b < |fs.disk| && Inv(Written(fs, b, off, data), owner)
            && forall l: nat, j: nat :: HasByte(fs, l, j) ==>
                 ByteAt(Written(fs, b, off, data), l, j) ==
                 if l == k && at <= j < at + |data| then data[j - at] else ByteAt(fs, l, j)
  {
    var b, at := Holds(fs, Data(k, i)), i * BLKSIZE + off;
    WriteKeepsHolds(fs, owner, k, i, off, data);
    var fs' := Written(fs, b, off, data);
    forall l: nat, j: nat | HasByte(fs, l, j)
      ensures ByteAt(fs', l, j) == if l == k && at <= j < at + |data| then data[j - at] else ByteAt(fs, l, j)
    {
      assert j / BLKSIZE < fs.inodes[l].blocks;
      if Data(l, j / BLKSIZE) != Data(k, i) {
        RolesApart(fs, owner, Data(k, i), Data(l, j / BLKSIZE));
      }
    }
  }

  // ---------- what sfs_bmap_load_nolock does to a file ----------

  /** How many blocks the next block of a file takes: one more when it is the
      first one to need the table. */
  function Needed(n: Inode): nat {
    if n.blocks >= NDIRECT && n.indirect == 0 then 2 else 1
  }

  /** How many blocks it takes to give a file t blocks. */
  function Cost(n: Inode, t: nat): nat {
    if t <= n.blocks then 0 else t - n.blocks + if n.indirect == 0 && t > NDIRECT then 1 else 0
  }

  /** File n became n' and took exactly the blocks that costs. */
  ghost predicate Paid(n: Inode, n': Inode, free: nat, left: nat) {
    && n.blocks <= n'.blocks && free == left + Cost(n, n'.blocks)
    && (n.blocks > NDIRECT ==> n.indirect != 0) && (n'.indirect != 0 <==> n.indirect != 0 || n'.blocks > NDIRECT)
  }

  lemma PaidNothing(fs: Fs, owner: map<nat, Role>, k: nat)
    requires Inv(fs, owner) && k in fs.inodes
    ensures Paid(fs.inodes[k], fs.inodes[k], |fs.free|, |fs.free|)
  {
    assert fs.inodes[k].blocks > NDIRECT ==> Holds(fs, Data(k, NDIRECT)) != 0;
  }

  lemma PaidMore(n: Inode, mid: Fs, fs': Fs, k: nat, free: nat)
    requires Grew(mid, fs', k) && Paid(n, mid.inodes[k], free, |mid.free|)
    ensures Paid(n, fs'.inodes[k], free, |fs'.free|)
  {
  }

  /** The other files are untouched, and so is the size of file k. */
  ghost predicate SameInodes(fs: Fs, fs': Fs, k: nat) {
    && k in fs.inodes && fs'.inodes.Keys == fs.inodes.Keys && fs'.inodes[k].size == fs.inodes[k].size
    && forall l :: l in fs.inodes && l != k ==> fs'.inodes[l] == fs.inodes[l]
  }

  /** File k has one more block, all zeros; no file has lost or changed a byte. */
  ghost predicate Grew(fs: Fs, fs': Fs, k: nat) {
    && Shape(fs) && Shape(fs') && SameInodes(fs, fs', k) && KeepsBytes(fs, fs')
    && fs'.inodes[k].blocks == fs.inodes[k].blocks + 1
    && |fs'.free| == |fs.free| - Needed(fs.inodes[k])
    && (fs'.inodes[k].indirect != 0 <==> fs.inodes[k].indirect != 0 || fs.inodes[k].blocks >= NDIRECT)
    && forall j: nat :: j / BLKSIZE == fs.inodes[k].blocks ==> ByteAt(fs', k, j) == 0
  }

  /** The allocation was undone: at most the contents of free blocks differ. */
  ghost predicate Undone(fs: Fs, fs': Fs) {
    && Shape(fs) && Shape(fs') && KeepsBytes(fs, fs') && KeepsBytes(fs', fs)
    && fs'.inodes == fs.inodes && fs'.free == fs.free && fs'.unused == fs.unused
  }

  lemma KeepsBytesTwice(fs: Fs, mid: Fs, fs': Fs)
    requires Shape(fs) && Shape(mid) && Shape(fs') && KeepsBytes(fs, mid) && KeepsBytes(mid, fs')
    ensures KeepsBytes(fs, fs')
  {
  }

  /** A new block reached through an inode or through a table it already has. */
  lemma GrowOnce(fs: Fs, owner: map<nat, Role>, k: nat, b: nat, fs': Fs)
    requires Inv(fs, owner) && b in fs.free && Appended(Taken(fs, b), fs', k, b)
    requires Needed(fs.inodes[k]) == 1
    ensures Inv(fs', owner[b := Data(k, fs.inodes[k].blocks)]) && Grew(fs, fs', k)
    ensures Holds(fs', Data(k, fs.inodes[k].blocks)) == b
  {
    TakeKeepsInv(fs, owner, b);
    TakeKeepsBytes(fs, owner, b);
    Append(Taken(fs, b), owner, k, b, fs');
    KeepsBytesTwice(fs, Taken(fs, b), fs');
  }

  /** The part of growing that comes after the allocations. */
  lemma Append(fs: Fs, owner: map<nat, Role>, k: nat, b: nat, fs': Fs)
    requires Inv(fs, owner) && Loose(fs, b) && fs.disk[b] == Zeros() && Appended(fs, fs', k, b)
    ensures Inv(fs', owner[b := Data(k, fs.inodes[k].blocks)]) && SameInodes(fs, fs', k) && KeepsBytes(fs, fs')
    ensures fs'.inodes[k].blocks == fs.inodes[k].blocks + 1 && fs'.free == fs.free
    ensures fs'.inodes[k].indirect == fs.inodes[k].indirect
    ensures Holds(fs', Data(k, fs.inodes[k].blocks)) == b
    ensures forall j: nat :: j / BLKSIZE == fs.inodes[k].blocks ==> ByteAt(fs', k, j) == 0
  {
    AppendRole(fs, owner, k, b, fs');
    AppendKeepsInv(fs, owner, k, b, fs');
    AppendKeepsBytes(fs, owner, k, b, fs');
    forall j: nat | j / BLKSIZE == fs.inodes[k].blocks ensures ByteAt(fs', k, j) == 0 {
      AppendIsZero(fs, owner, k, b, fs', j);
    }
  }

  /** The first block behind a table takes the table's block as well. */
  lemma GrowTwice(fs: Fs, owner: map<nat, Role>, k: nat, e: nat, b: nat, fs': Fs)
    requires Inv(fs, owner) && e in fs.free && b in fs.free && b != e && k in fs.inodes
    requires fs.inodes[k].indirect == 0 && NDIRECT <= fs.inodes[k].blocks < MAX_BLOCKS
    requires Appended(WithTable(Taken(Taken(fs, e), b), k, e), fs', k, b)
    ensures Inv(fs', owner[e := Indirect(k)][b := Data(k, fs.inodes[k].blocks)]) && Grew(fs, fs', k)
    ensures Holds(fs', Data(k, fs.inodes[k].blocks)) == b
  {
    TakeKeepsInv(fs, owner, e);
    TakeKeepsBytes(fs, owner, e);
    var one := Taken(fs, e);
    TakeKeepsInv(one, owner, b);
    TakeKeepsBytes(one, owner, b);
    TakeKeepsLoose(one, owner, e, b);
    var two := Taken(one, b);
    KeepsBytesTwice(fs, one, two);
    TableKeepsInv(two, owner, k, e);
    var three := WithTable(two, k, e);
    KeepsBytesTwice(fs, two, three);
    Append(three, owner[e := Indirect(k)], k, b, fs');
    KeepsBytesTwice(fs, three, fs');
  }

  /** A table block that was taken in vain goes back. */
  lemma UndoTake(fs: Fs, owner: map<nat, Role>, e: nat)
    requires Inv(fs, owner) && e in fs.free
    ensures Inv(Given(Taken(fs, e), e), owner) && Undone(fs, Given(Taken(fs, e), e))
  {
    TakeKeepsInv(fs, owner, e);
    TakeKeepsBytes(fs, owner, e);
    GiveKeepsInv(Taken(fs, e), owner, e);
    KeepsBytesTwice(fs, Taken(fs, e), Given(Taken(fs, e), e));
  }

  // ---------- a file as a flat sequence of bytes ----------

  /** Byte j of file k before it was grown: blocks that are missing will be zeros. */
  ghost function Before(fs: Fs, k: nat, j: nat): byte
    requires Shape(fs) && k in fs.inodes
  {
    if HasByte(fs, k, j) then ByteAt(fs, k, j) else 0
  }

  /** From fs to fs', exactly the bytes of file k at `at` were replaced by data. */
  ghost predicate Replaced(fs: Fs, fs': Fs, k: nat, at: nat, data: seq<byte>) {
    && Shape(fs) && Shape(fs') && k in fs.inodes && fs'.inodes.Keys == fs.inodes.Keys
    && fs.inodes[k].blocks <= fs'.inodes[k].blocks
    && (forall l :: l in fs.inodes && l != k ==> fs'.inodes[l] == fs.inodes[l])
    && (forall l: nat, j: nat :: l != k && HasByte(fs, l, j) ==> ByteAt(fs', l, j) == ByteAt(fs, l, j))
    && (forall j: nat :: HasByte(fs', k, j) ==>
          ByteAt(fs', k, j) == if at <= j < at + |data| then data[j - at] else Before(fs, k, j))
    && (data != [] ==> at + |data| <= fs'.inodes[k].blocks * BLKSIZE)
  }

  lemma ReplaceThenGrow(fs: Fs, mid: Fs, fs': Fs, k: nat, at: nat, data: seq<byte>)
    requires Replaced(fs, mid, k, at, data) && Grew(mid, fs', k)
    ensures Replaced(fs, fs', k, at, data)
  {
    forall j: nat | HasByte(fs', k, j)
      ensures ByteAt(fs', k, j) == if at <= j < at + |data| then data[j - at] else Before(fs, k, j)
    {
      if !HasByte(mid, k, j) {
        assert j / BLKSIZE == mid.inodes[k].blocks;
      }
    }
  }

  lemma ReplaceThenUndo(fs: Fs, mid: Fs, fs': Fs, k: nat, at: nat, data: seq<byte>)
    requires Replaced(fs, mid, k, at, data) && Undone(mid, fs')
    ensures Replaced(fs, fs', k, at, data)
  {
  }

  lemma ReplaceMore(fs: Fs, mid: Fs, owner: map<nat, Role>, k: nat, at: nat, data: seq<byte>, i: nat, off: nat, more: seq<byte>)
    requires Replaced(fs, mid, k, at, data) && Inv(mid, owner)
    requires i < mid.inodes[k].blocks && at + |data| == i * BLKSIZE + off && off + |more| <= BLKSIZE
    ensures var b := Holds(mid, Data(k, i));
            && b < |mid.disk| && Inv(Written(mid, b, off, more), owner)
            && Replaced(fs, Written(mid, b, off, more), k, at, data + more)
  {
    WriteIsLocal(mid, owner, k, i, off, more);
    var pos, fs', all := at + |data|, Written(mid, Holds(mid, Data(k, i)), off, more), data + more;
    forall j: nat | HasByte(fs', k, j)
      ensures ByteAt(fs', k, j) == if at <= j < at + |all| then all[j - at] else Before(fs, k, j)
    {
      assert HasByte(mid, k, j);
      assert ByteAt(fs', k, j) == if pos <= j < pos + |more| then more[j - pos] else ByteAt(mid, k, j);
    }
    forall l: nat, j: nat | l != k && HasByte(fs, l, j) ensures ByteAt(fs', l, j) == ByteAt(fs, l, j) {
      assert HasByte(mid, l, j);
    }
  }

  /** What a file contains. */
  ghost function Contents(fs: Fs, k: nat): seq<byte>
    requires Shape(fs) && k in fs.inodes
  {
    seq(fs.inodes[k].size, (j: nat) => ByteAt(fs, k, j))
  }

  /** A sequence of bytes with data at some offset of it, which may run past its end. */
  ghost function Spliced(s: seq<byte>, at: nat, data: seq<byte>): seq<byte>
    requires at <= |s|
  {
    s[..at] + data + if at + |data| <= |s| then s[at + |data|..] else []
  }

  /** What file k contains after a write, which may start behind its end: bytes between
      the old end and the write are what the last block held there, or zeros. */
  ghost function WrittenContents(fs: Fs, k: nat, at: nat, data: seq<byte>): seq<byte>
    requires Shape(fs) && k in fs.inodes
  {
    var size := if at + |data| > fs.inodes[k].size then at + |data| else fs.inodes[k].size;
    seq(size, (j: nat) => if at <= j < at + |data| then data[j - at] else Before(fs, k, j))
  }

  lemma ReplacedContents(fs: Fs, fs': Fs, k: nat, at: nat, data: seq<byte>)
    requires Replaced(fs, fs', k, at, data) && Sized(fs'.inodes[k])
    requires fs'.inodes[k].size == if at + |data| > fs.inodes[k].size then at + |data| else fs.inodes[k].size
    ensures Contents(fs', k) == WrittenContents(fs, k, at, data)
  {
    forall j: nat | j < fs'.inodes[k].size ensures Contents(fs', k)[j] == WrittenContents(fs, k, at, data)[j] {
      assert HasByte(fs', k, j);
    }
  }

  /** A write within or at the end of a file acts on what the file contains. */
  lemma WrittenWithin(fs: Fs, k: nat, at: nat, data: seq<byte>)
    requires Shape(fs) && k in fs.inodes && Sized(fs.inodes[k]) && at <= fs.inodes[k].size
    ensures WrittenContents(fs, k, at, data) == Spliced(Contents(fs, k), at, data)
  {
    forall j: nat | j < fs.inodes[k].size ensures Before(fs, k, j) == Contents(fs, k)[j] {
      assert HasByte(fs, k, j);
    }
  }

  lemma OtherContents(fs: Fs, fs': Fs, k: nat, at: nat, data: seq<byte>, l: nat)
    requires Replaced(fs, fs', k, at, data) && l in fs.inodes && l != k && Sized(fs.inodes[l])
    ensures Contents(fs', l) == Contents(fs, l)
  {
    forall j | 0 <= j < fs.inodes[l].size ensures Contents(fs', l)[j] == Contents(fs, l)[j] {
      assert HasByte(fs, l, j);
    }
  }

  ghost function Resized(fs: Fs, k: nat, size: nat): Fs
    requires k in fs.inodes
  {
    fs.(inodes := fs.inodes[k := fs.inodes[k].(size := size)])
  }

  /** The size of a file decides neither where its blocks are nor what is in them. */
  lemma ResizeIsHarmless(fs: Fs, owner: map<nat, Role>, k: nat, size: nat)
    requires Inv(fs, owner) && k in fs.inodes
    ensures Inv(Resized(fs, k, size), owner)
    ensures KeepsBytes(fs, Resized(fs, k, size)) && KeepsBytes(Resized(fs, k, size), fs)
  {
    var fs' := Resized(fs, k, size);
    forall r: Role | r.ino in fs.inodes ensures Holds(fs', r) == Holds(fs, r) {
    }
  }

  lemma ReplaceThenResize(fs: Fs, mid: Fs, owner: map<nat, Role>, k: nat, at: nat, data: seq<byte>, size: nat)
    requires Replaced(fs, mid, k, at, data) && Inv(mid, owner)
    ensures Replaced(fs, Resized(mid, k, size), k, at, data)
  {
    ResizeIsHarmless(mid, owner, k, size);
    var fs' := Resized(mid, k, size);
    forall l: nat, j: nat | l != k && HasByte(fs, l, j) ensures ByteAt(fs', l, j) == ByteAt(fs, l, j) {
      assert HasByte(mid, l, j);
    }
    forall j: nat | HasByte(fs', k, j)
      ensures ByteAt(fs', k, j) == if at <= j < at + |data| then data[j - at] else Before(fs, k, j)
    {
      assert HasByte(mid, k, j);
    }
  }

  // ---------- cutting off the end of a file ----------

  /** The blocks of file k from index i on. */
  ghost function BlocksFrom(fs: Fs, k: nat, i: nat): set<nat>
    requires Shape(fs) && k in fs.inodes
  {
    set j: nat | i <= j < fs.inodes[k].blocks :: Holds(fs, Data(k, j))
  }

  /** All blocks of file k. */
  ghost function BlocksOf(fs: Fs, k: nat): set<nat>
    requires Shape(fs) && k in fs.inodes
  {
    BlocksFrom(fs, k, 0) + {k} + if fs.inodes[k].indirect != 0 then {fs.inodes[k].indirect} else {}
  }

  /** fs' is fs without some blocks at the end of file k; exactly they are free now,
      and nothing else has changed. */
  ghost predicate Trimmed(fs: Fs, fs': Fs, k: nat) {
    && Shape(fs) && Shape(fs') && SameInodes(fs, fs', k) && KeepsBytes(fs', fs)
    && fs'.inodes[k].blocks <= fs.inodes[k].blocks && fs'.inodes[k].indirect == fs.inodes[k].indirect
    && fs'.free == fs.free + BlocksFrom(fs, k, fs'.inodes[k].blocks)
    && |fs'.free| + fs'.inodes[k].blocks == |fs.free| + fs.inodes[k].blocks
    && forall i: nat :: i < fs'.inodes[k].blocks ==> Holds(fs', Data(k, i)) == Holds(fs, Data(k, i))
  }

  lemma TrimMore(fs: Fs, mid: Fs, owner: map<nat, Role>, k: nat, fs': Fs)
    requires Trimmed(fs, mid, k) && Inv(mid, owner) && Shrunk(mid, fs', k)
    ensures Trimmed(fs, fs', k)
  {
    ShrinkRole(mid, owner, k, fs');
    ShrinkKeepsBytes(mid, owner, k, fs');
    KeepsBytesTwice(fs', mid, fs);
    var last := mid.inodes[k].blocks - 1;
    assert Holds(mid, Data(k, last)) !in mid.free;
    TrimOnce(fs, mid, k, fs', last);
  }

  lemma TrimOnce(fs: Fs, mid: Fs, k: nat, fs': Fs, last: nat)
    requires Trimmed(fs, mid, k) && Shape(fs') && SameInodes(mid, fs', k) && KeepsBytes(fs', fs)
    requires fs'.inodes[k].blocks == last && mid.inodes[k].blocks == last + 1 && fs'.inodes[k].indirect == mid.inodes[k].indirect
    requires var b := Holds(mid, Data(k, last)); b !in mid.free && fs'.free == mid.free + {b}
    requires forall i: nat :: i < last ==> Holds(fs', Data(k, i)) == Holds(mid, Data(k, i))
    ensures Trimmed(fs, fs', k)
  {
    BlocksFromLess(fs, k, last);
  }

  lemma BlocksFromLess(fs: Fs, k: nat, i: nat)
    requires Shape(fs) && k in fs.inodes && i < fs.inodes[k].blocks
    ensures BlocksFrom(fs, k, i) == BlocksFrom(fs, k, i + 1) + {Holds(fs, Data(k, i))}
  {
  }

  /** The file keeps the first bytes of what it contained. */
  lemma KeptContents(fs: Fs, fs': Fs, k: nat, common: nat)
    requires Shape(fs) && k in fs.inodes && Sized(fs.inodes[k]) && k in fs'.inodes && Sized(fs'.inodes[k])
    requires Trimmed(fs, Resized(fs', k, fs.inodes[k].size), k) || Replaced(fs, fs', k, 0, [])
    requires Shape(fs') && common <= fs.inodes[k].size && common <= fs'.inodes[k].size
    ensures Contents(fs', k)[..common] == Contents(fs, k)[..common]
  {
    forall j: nat | j < common ensures ByteAt(fs', k, j) == ByteAt(fs, k, j) {
      assert HasByte(fs', k, j) && HasByte(fs, k, j);
      if !Replaced(fs, fs', k, 0, []) {
        KeptByte(fs, fs', k, j);
      }
    }
  }

  lemma KeptByte(fs: Fs, fs': Fs, k: nat, j: nat)
    requires Shape(fs') && k in fs.inodes && HasByte(fs', k, j) && Trimmed(fs, Resized(fs', k, fs.inodes[k].size), k)
    ensures ByteAt(fs', k, j) == ByteAt(fs, k, j)
  {
    var mid := Resized(fs', k, fs.inodes[k].size);
    assert HasByte(mid, k, j);
    assert Holds(mid, Data(k, j / BLKSIZE)) == Holds(fs', Data(k, j / BLKSIZE));
  }

  /** The blocks a file without data still has go back. */
  ghost function Removed(fs: Fs, k: nat): Fs
    requires k in fs.inodes
  {
    var n := fs.inodes[k];
    var fs1 := Given(fs, k);
    var fs2 := if n.indirect != 0 then Given(fs1, n.indirect) else fs1;
    fs2.(inodes := fs.inodes - {k})
  }

  lemma RemoveKeepsInv(fs: Fs, owner: map<nat, Role>, k: nat)
    requires Inv(fs, owner) && k in fs.inodes && fs.inodes[k].blocks == 0
    ensures InUse(fs, k) && (fs.inodes[k].indirect != 0 ==> InUse(Given(fs, k), fs.inodes[k].indirect))
    ensures Inv(Removed(fs, k), owner) && KeepsBytes(Removed(fs, k), fs)
    ensures |Removed(fs, k).free| == |fs.free| + if fs.inodes[k].indirect != 0 then 2 else 1
  {
    var fs', n := Removed(fs, k), fs.inodes[k];
    assert Holds(fs, Self(k)) == k;
    assert Holds(fs, Indirect(k)) == n.indirect;
    if n.indirect != 0 {
      RolesApart(fs, owner, Self(k), Indirect(k));
    }
    forall r: Role | r.ino in fs'.inodes
      ensures Holds(fs', r) == Holds(fs, r) && (Holds(fs, r) != 0 ==> Holds(fs, r) !in fs'.free)
    {
      RolesApart(fs, owner, Self(k), r);
      if n.indirect != 0 {
        RolesApart(fs, owner, Indirect(k), r);
      }
    }
  }

  lemma RemovedBlocks(fs: Fs, mid: Fs, k: nat)
    requires Shape(fs) && k in fs.inodes && k in mid.inodes && mid.inodes[k].blocks == 0
    requires mid == fs || Trimmed(fs, Resized(mid, k, fs.inodes[k].size), k)
    ensures Removed(mid, k).free == fs.free + BlocksOf(fs, k) && Removed(mid, k).inodes == fs.inodes - {k}
  {
    assert mid.free == fs.free + BlocksFrom(fs, k, 0);
    assert mid != fs ==> SameInodes(fs, Resized(mid, k, fs.inodes[k].size), k);
  }

  /** Cutting a file to nothing and then removing it. */
  lemma TrimThenRemove(fs: Fs, mid: Fs, owner: map<nat, Role>, k: nat)
    requires Shape(fs) && k in fs.inodes && Inv(mid, owner) && k in mid.inodes && mid.inodes[k].blocks == 0
    requires mid == fs || Trimmed(fs, Resized(mid, k, fs.inodes[k].size), k)
    ensures Shape(Removed(mid, k)) && KeepsBytes(Removed(mid, k), fs)
    ensures Removed(mid, k).inodes == fs.inodes - {k} && Removed(mid, k).free == fs.free + BlocksOf(fs, k)
    ensures |Removed(mid, k).free| == |fs.free| + fs.inodes[k].blocks + 1 + if fs.inodes[k].indirect != 0 then 1 else 0
  {
    RemoveKeepsInv(mid, owner, k);
    RemovedBlocks(fs, mid, k);
    if mid != fs {
      ResizeIsHarmless(mid, owner, k, fs.inodes[k].size);
      KeepsBytesTwice(Removed(mid, k), mid, Resized(mid, k, fs.inodes[k].size));
      KeepsBytesTwice(Removed(mid, k), Resized(mid, k, fs.inodes[k].size), fs);
    }
  }
}
