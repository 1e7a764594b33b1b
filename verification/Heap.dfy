/** The user heap as malloc.c sees it, in units of its 64-byte header: blocks that
    tile the heap, and a ring of free blocks through a sentinel of size zero. */
module Heap {

  type Links = map<int, int>

  // ---------- blocks ----------

  ghost predicate Placed(size: Links, lo: int, end: int, b: int) {
    b in size && size[b] >= 1 && lo <= b && b + size[b] <= end
  }

  /** The heap goes on where block b ends. */
  ghost predicate Followed(size: Links, blocks: set<int>, end: int, b: int) {
    b in size && (b + size[b] == end || b + size[b] in blocks)
  }

  ghost predicate Apart(size: Links, b: int, c: int) {
    b in size && b + size[b] <= c
  }

  /** The blocks do not overlap and leave no gap in [lo, end). */
  ghost predicate Tiled(size: Links, blocks: set<int>, lo: int, end: int) {
    && (lo == end || lo in blocks)
    && (forall b :: b in blocks ==> Placed(size, lo, end, b))
    && (forall b, c {:trigger Apart(size, b, c)} :: b in blocks && c in blocks && b < c ==> Apart(size, b, c))
    && (forall b {:trigger Followed(size, blocks, end, b)} :: b in blocks ==> Followed(size, blocks, end, b))
  }

  /** Every unit of the heap is in exactly one block. */
  lemma UnitsHaveOneBlock(size: Links, blocks: set<int>, lo: int, end: int, u: int) returns (b: int)
    requires Tiled(size, blocks, lo, end) && lo <= u < end
    ensures b in blocks && b <= u < b + size[b]
    ensures forall c :: c in blocks && c <= u < c + size[c] ==> c == b
  {
    b := lo;
    while b + size[b] <= u
      invariant b in blocks && b <= u
      decreases u - b
    {
      assert Followed(size, blocks, end, b);
      b := b + size[b];
    }
    forall c | c in blocks && c <= u < c + size[c] ensures c == b {
      assert c < b ==> Apart(size, c, b);
      assert b < c ==> Apart(size, b, c);
    }
  }

  lemma SplitBlock(size: Links, blocks: set<int>, lo: int, end: int, p: int, n: int)
    requires Tiled(size, blocks, lo, end) && p in blocks && 0 < n < size[p]
    ensures p + n !in blocks
    ensures Tiled(size[p + n := size[p] - n][p := n], blocks + {p + n}, lo, end)
  {
    var size', blocks' := size[p + n := size[p] - n][p := n], blocks + {p + n};
    assert p + n in blocks ==> Apart(size, p, p + n);
    forall b, c | b in blocks' && c in blocks' && b < c ensures Apart(size', b, c) {
      SplitApart(size, blocks, lo, end, p, n, b, c);
    }
    forall b | b in blocks' ensures Placed(size', lo, end, b) && Followed(size', blocks', end, b) {
      assert Followed(size, blocks, end, if b == p + n then p else b);
    }
  }

  lemma SplitApart(size: Links, blocks: set<int>, lo: int, end: int, p: int, n: int, b: int, c: int)
    requires Tiled(size, blocks, lo, end) && p in blocks && 0 < n < size[p]
    requires b in blocks + {p + n} && c in blocks + {p + n} && b < c
    ensures Apart(size[p + n := size[p] - n][p := n], b, c)
  {
    assert p + n in blocks ==> Apart(size, p, p + n);
    if c == p + n {
      assert b < p ==> Apart(size, b, p);
      assert p < b ==> Apart(size, p, b);
    } else if b == p + n {
      assert Apart(size, p, c);
    } else {
      assert Apart(size, b, c);
    }
  }

  lemma MergeBlocks(size: Links, blocks: set<int>, lo: int, end: int, a: int, b: int)
    requires Tiled(size, blocks, lo, end) && a in blocks && b in blocks && a + size[a] == b
    ensures Tiled(size[a := size[a] + size[b]], blocks - {b}, lo, end)
  {
    var size', blocks' := size[a := size[a] + size[b]], blocks - {b};
    assert Placed(size, lo, end, a) && Placed(size, lo, end, b);
    forall c | c in blocks' ensures Placed(size', lo, end, c) {
      assert Placed(size, lo, end, c);
    }
    forall c, d | c in blocks' && d in blocks' && c < d ensures Apart(size', c, d) {
      assert Apart(size, c, d);
      assert c == a ==> Apart(size, b, d);
    }
    forall c | c in blocks' ensures Followed(size', blocks', end, c) {
      assert Followed(size, blocks, end, if c == a then b else c);
      assert c < a ==> Apart(size, c, a);
      assert c > a ==> Apart(size, a, c);
    }
  }

  lemma EnlargeHeap(size: Links, blocks: set<int>, lo: int, end: int, end': int)
    requires Tiled(size, blocks, lo, end) && lo <= end < end'
    ensures end !in blocks
    ensures Tiled(size[end := end' - end], blocks + {end}, lo, end')
  {
    var size', blocks' := size[end := end' - end], blocks + {end};
    forall b, c | b in blocks' && c in blocks' && b < c ensures Apart(size', b, c) {
      assert b in blocks && c in blocks ==> Apart(size, b, c);
    }
    forall b | b in blocks' ensures Followed(size', blocks', end', b) {
      assert b in blocks ==> Followed(size, blocks, end, b);
    }
  }

  // ---------- the ring of free blocks ----------

  function Next(ring: seq<int>, i: nat): int
    requires i < |ring|
  {
    if i + 1 < |ring| then ring[i + 1] else ring[0]
  }

  ghost predicate Sorted(ring: seq<int>) {
    forall i, j :: 0 <= i < j < |ring| ==> ring[i] < ring[j]
  }

  ghost predicate Hop(ptr: Links, ring: seq<int>, i: nat)
    requires i < |ring|
  {
    ring[i] in ptr && ptr[ring[i]] == Next(ring, i)
  }

  /** A circular list in address order that starts at the sentinel. */
  ghost predicate Ring(ptr: Links, ring: seq<int>, base: int) {
    && |ring| > 0 && ring[0] == base && Sorted(ring)
    && forall i: nat :: i < |ring| ==> Hop(ptr, ring, i)
  }

  ghost predicate GapAfter(size: Links, ring: seq<int>, i: nat)
    requires i + 1 < |ring|
  {
    ring[i] in size && ring[i] + size[ring[i]] != ring[i + 1]
  }

  ghost function Linked(ring: seq<int>, i: nat, b: int): seq<int>
    requires i < |ring|
  {
    ring[..i + 1] + [b] + ring[i + 1..]
  }

  ghost function Unlinked(ring: seq<int>, i: nat): seq<int>
    requires i < |ring|
  {
    ring[..i] + ring[i + 1..]
  }

  lemma LinkKeepsRing(ptr: Links, ring: seq<int>, base: int, i: nat, b: int)
    requires Ring(ptr, ring, base) && i < |ring| && ring[i] < b && (i + 1 < |ring| ==> b < ring[i + 1])
    ensures ring[i] in ptr && Ring(ptr[b := ptr[ring[i]]][ring[i] := b], Linked(ring, i, b), base)
  {
    assert Hop(ptr, ring, i);
    var ptr', ring' := ptr[b := ptr[ring[i]]][ring[i] := b], Linked(ring, i, b);
    forall j: nat | j < |ring'| ensures Hop(ptr', ring', j) {
      if j <= i {
        assert Hop(ptr, ring, j);
      } else if j > i + 1 {
        assert Hop(ptr, ring, j - 1);
      }
    }
  }

  lemma UnlinkKeepsRing(ptr: Links, ring: seq<int>, base: int, i: nat)
    requires Ring(ptr, ring, base) && 0 < i < |ring|
    ensures ring[i] in ptr && Ring(ptr[ring[i - 1] := ptr[ring[i]]], Unlinked(ring, i), base)
  {
    assert Hop(ptr, ring, i);
    var ptr', ring' := ptr[ring[i - 1] := ptr[ring[i]]], Unlinked(ring, i);
    forall j: nat | j < |ring'| ensures Hop(ptr', ring', j) {
      assert Hop(ptr, ring, if j < i then j else j + 1);
    }
  }

  lemma ReplaceKeepsRing(ptr: Links, ring: seq<int>, base: int, i: nat, b: int)
    requires Ring(ptr, ring, base) && 0 < i < |ring| && ring[i] < b && (i + 1 < |ring| ==> b < ring[i + 1])
    ensures ring[i] in ptr && Ring(ptr[ring[i - 1] := b][b := ptr[ring[i]]], ring[i := b], base)
  {
    assert Hop(ptr, ring, i);
    var ptr', ring' := ptr[ring[i - 1] := b][b := ptr[ring[i]]], ring[i := b];
    forall j: nat | j < |ring'| ensures Hop(ptr', ring', j) {
      assert Hop(ptr, ring, j);
    }
  }

  // ---------- the whole heap ----------

  /** The headers, the ring, the free blocks and all blocks, and the ends of the heap. */
  datatype Mem = Mem(ptr: Links, size: Links, ring: seq<int>, free: set<int>, blocks: set<int>, lo: int, end: int)

  /** The nodes of the ring but its sentinel are free blocks. */
  ghost predicate Lists(ring: seq<int>, free: set<int>) {
    forall i: nat :: 0 < i < |ring| ==> ring[i] in free
  }

  /** Every free block is on the ring. */
  ghost predicate Complete(ring: seq<int>, free: set<int>) {
    forall b {:trigger OnRing(ring, b)} :: b in free ==> OnRing(ring, b)
  }

  ghost predicate OnRing(ring: seq<int>, b: int) {
    b in ring
  }

  /** Only at the indices in loose may free blocks touch. */
  ghost predicate Gaps(m: Mem, loose: set<nat>) {
    forall i: nat :: 0 < i < |m.ring| - 1 && i !in loose ==> GapAfter(m.size, m.ring, i)
  }

  ghost predicate Kept(m: Mem, base: int) {
    && Ring(m.ptr, m.ring, base) && base in m.size && m.size[base] == 0 && base < m.lo <= m.end
    && Lists(m.ring, m.free) && m.free <= m.blocks && Tiled(m.size, m.blocks, m.lo, m.end)
  }

  /** The ring is circular, in address order, fully coalesced, and holds exactly the
      free blocks; the blocks, free and taken, make up the heap. */
  ghost predicate Inv(m: Mem, base: int) {
    Kept(m, base) && Gaps(m, {}) && Complete(m.ring, m.free)
  }

  /** Blocks that malloc has handed out. */
  ghost predicate IsTaken(m: Mem, b: int) {
    b in m.blocks && b !in m.free
  }

  /** The blocks that stay taken keep their sizes. */
  ghost predicate SameTaken(m: Mem, m': Mem) {
    forall b :: IsTaken(m, b) && IsTaken(m', b) ==> b in m.size && b in m'.size && m'.size[b] == m.size[b]
  }

  /** Around node t of the ring. */
  lemma Neighbours(m: Mem, base: int, t: nat)
    requires Kept(m, base) && t < |m.ring|
    ensures m.ring[t] in m.ptr && m.ring[t] in m.size && m.ptr[m.ring[t]] == Next(m.ring, t)
    ensures t > 0 ==> m.lo <= m.ring[t] < m.end && m.size[m.ring[t]] >= 1
    ensures Next(m.ring, t) in m.ptr && Next(m.ring, t) in m.size
    ensures t + 1 < |m.ring| ==> Next(m.ring, t) >= m.lo && m.ring[t] + m.size[m.ring[t]] <= m.ring[t + 1]
  {
    var next := if t + 1 < |m.ring| then t + 1 else 0;
    assert Hop(m.ptr, m.ring, t) && Hop(m.ptr, m.ring, next);
    assert t > 0 ==> m.ring[t] in m.blocks && Placed(m.size, m.lo, m.end, m.ring[t]);
    assert next > 0 ==> m.ring[next] in m.blocks && Placed(m.size, m.lo, m.end, m.ring[next]);
    assert t > 0 && next > 0 ==> Apart(m.size, m.ring[t], m.ring[next]);
  }

  // ---------- free_locked ----------

  /** A taken block joins the ring; it may touch its neighbours. */
  ghost function Joined(m: Mem, t: nat, b: int): Mem
    requires t < |m.ring| && m.ring[t] in m.ptr
  {
    m.(ptr := m.ptr[b := m.ptr[m.ring[t]]][m.ring[t] := b], ring := Linked(m.ring, t, b), free := m.free + {b})
  }

  /** Block b lies between node t of the ring and the next one. */
  ghost predicate Between(ring: seq<int>, t: nat, b: int) {
    t < |ring| && ring[t] < b && (t + 1 < |ring| ==> b < ring[t + 1])
  }

  lemma JoinKeeps(m: Mem, base: int, t: nat, b: int)
    requires Kept(m, base) && IsTaken(m, b) && Between(m.ring, t, b)
    ensures m.ring[t] in m.ptr && Kept(Joined(m, t, b), base) && SameTaken(m, Joined(m, t, b))
  {
    LinkKeepsRing(m.ptr, m.ring, base, t, b);
    forall c | IsTaken(m, c) ensures c in m.size {
      assert Placed(m.size, m.lo, m.end, c);
    }
  }

  lemma JoinGaps(m: Mem, t: nat, b: int)
    requires Gaps(m, {}) && t < |m.ring| && m.ring[t] in m.ptr
    ensures Gaps(Joined(m, t, b), {t, t + 1})
  {
    var m' := Joined(m, t, b);
    forall i: nat | 0 < i < |m'.ring| - 1 && i !in {t, t + 1} ensures GapAfter(m'.size, m'.ring, i) {
      assert GapAfter(m.size, m.ring, if i < t then i else i - 1);
    }
  }

  /** Free block i swallows the one after it. */
  ghost function Absorbed(m: Mem, i: nat): Mem
    requires i + 1 < |m.ring| && m.ring[i] in m.size && m.ring[i + 1] in m.size && m.ring[i + 1] in m.ptr
  {
    var a, b := m.ring[i], m.ring[i + 1];
    m.(ptr := m.ptr[a := m.ptr[b]], size := m.size[a := m.size[a] + m.size[b]], ring := Unlinked(m.ring, i + 1),
       free := m.free - {b}, blocks := m.blocks - {b})
  }

  ghost predicate Touches(m: Mem, i: nat) {
    && i + 1 < |m.ring| && m.ring[i] in m.size && m.ring[i] + m.size[m.ring[i]] == m.ring[i + 1]
    && m.ring[i + 1] in m.size && m.ring[i + 1] in m.ptr
  }

  lemma AbsorbKeeps(m: Mem, base: int, i: nat)
    requires Kept(m, base) && 0 < i && Touches(m, i)
    ensures Kept(Absorbed(m, i), base) && SameTaken(m, Absorbed(m, i))
  {
    UnlinkKeepsRing(m.ptr, m.ring, base, i + 1);
    MergeBlocks(m.size, m.blocks, m.lo, m.end, m.ring[i], m.ring[i + 1]);
    forall c | IsTaken(m, c) ensures c in m.size {
      assert Placed(m.size, m.lo, m.end, c);
    }
  }

  lemma AbsorbGaps(m: Mem, i: nat, loose: set<nat>)
    requires 0 < i && Touches(m, i) && Sorted(m.ring) && Gaps(m, loose) && loose <= {i - 1, i}
    ensures Gaps(Absorbed(m, i), loose - {i})
  {
    var m' := Absorbed(m, i);
    forall j: nat | 0 < j < |m'.ring| - 1 && j !in loose - {i} ensures GapAfter(m'.size, m'.ring, j) {
      assert GapAfter(m.size, m.ring, if j < i then j else j + 1);
    }
  }

  ghost function Fused(m: Mem, i: nat): Mem {
    if Touches(m, i) then Absorbed(m, i) else m
  }

  lemma FuseKeeps(m: Mem, base: int, i: nat, loose: set<nat>)
    requires Kept(m, base) && i < |m.ring| && Gaps(m, loose) && loose <= {i - 1, i} && Complete(m.ring, m.free)
    ensures var m' := Fused(m, i);
            && Kept(m', base) && SameTaken(m, m') && Gaps(m', loose - {i}) && Complete(m'.ring, m'.free)
            && m'.lo == m.lo && m'.end == m.end && i < |m'.ring| && m'.ring[..i + 1] == m.ring[..i + 1]
            && forall c :: IsTaken(m', c) <==> IsTaken(m, c)
  {
    Neighbours(m, base, i);
    if Touches(m, i) {
      AbsorbKeeps(m, base, i);
      AbsorbGaps(m, i, loose);
      CompleteUnlinked(m.ring, m.free, i + 1);
    } else {
      forall c | IsTaken(m, c) ensures c in m.size {
        assert Placed(m.size, m.lo, m.end, c);
      }
    }
  }

  /** What free_locked makes of the heap: block b joins the ring after node t and
      fuses with the neighbours it touches. */
  ghost function Freed(m: Mem, t: nat, b: int): Mem
    requires t < |m.ring| && m.ring[t] in m.ptr
  {
    Fused(Fused(Joined(m, t, b), t + 1), t)
  }

  lemma SameTakenTwice(m: Mem, m1: Mem, m2: Mem)
    requires SameTaken(m, m1) && SameTaken(m1, m2) && forall c :: IsTaken(m2, c) ==> IsTaken(m1, c)
    ensures SameTaken(m, m2)
  {
  }

  lemma FuseBoth(m: Mem, base: int, t: nat)
    requires Kept(m, base) && Gaps(m, {t, t + 1}) && Complete(m.ring, m.free) && t + 1 < |m.ring|
    ensures var m' := Fused(Fused(m, t + 1), t);
            && Inv(m', base) && SameTaken(m, m') && m'.lo == m.lo && m'.end == m.end
            && m.ring[t] in m'.ring && forall c :: IsTaken(m', c) <==> IsTaken(m, c)
  {
    FuseKeeps(m, base, t + 1, {t, t + 1});
    var m1 := Fused(m, t + 1);
    assert {t, t + 1} - {t + 1} == {t};
    FuseKeeps(m1, base, t, {t});
    var m2 := Fused(m1, t);
    assert {t} - {t} == {};
    assert m1.ring[..t + 2][t] == m.ring[..t + 2][t] && m2.ring[..t + 1][t] == m1.ring[..t + 1][t];
    SameTakenTwice(m, m1, m2);
  }

  lemma FreeKeepsInv(m: Mem, base: int, t: nat, b: int)
    requires Inv(m, base) && IsTaken(m, b) && Between(m.ring, t, b)
    ensures m.ring[t] in m.ptr
    ensures var m' := Freed(m, t, b);
            && Inv(m', base) && SameTaken(m, m') && m'.lo == m.lo && m'.end == m.end
            && m.ring[t] in m'.ring && forall c :: IsTaken(m', c) <==> IsTaken(m, c) && c != b
  {
    JoinKeeps(m, base, t, b);
    JoinGaps(m, t, b);
    CompleteLinked(m.ring, m.free, t, b);
    FuseBoth(Joined(m, t, b), base, t);
    SameTakenTwice(m, Joined(m, t, b), Freed(m, t, b));
  }

  /** The first statements of free_locked's splicing: block b and the node after it. */
  lemma FreedUp(m: Mem, t: nat, b: int)
    requires t < |m.ring| && m.ring[t] in m.ptr && b in m.size && b != m.ring[t]
    requires var nx := m.ptr[m.ring[t]];
             && nx in m.ptr && nx in m.size && nx == Next(m.ring, t) && nx != b
             && (t + 1 == |m.ring| ==> b + m.size[b] != nx) && (t + 1 < |m.ring| ==> nx != m.ring[t])
    ensures var p := m.ring[t]; var nx := m.ptr[p]; var m' := Fused(Joined(m, t, b), t + 1);
            var up := b + m.size[b] == nx;
            && t + 1 < |m'.ring| && m'.ring[t] == p && m'.ring[t + 1] == b
            && m'.size == (if up then m.size[b := m.size[b] + m.size[nx]] else m.size)
            && m'.ptr == m.ptr[b := if up then m.ptr[nx] else nx][p := b]
  {
    var m1 := Joined(m, t, b);
    assert t + 1 < |m.ring| ==> m1.ring[t + 2] == m.ptr[m.ring[t]];
  }

  /** The sizes that free_locked writes when block b comes after node p. */
  ghost function SplicedSize(ptr: Links, size: Links, p: int, b: int): Links
    requires p in ptr && p in size && b in size && ptr[p] in size
  {
    var nx := ptr[p];
    var size1 := if b + size[b] == nx then size[b := size[b] + size[nx]] else size;
    if p + size[p] == b then size1[p := size[p] + size1[b]] else size1
  }

  /** The pointers that free_locked writes. */
  ghost function SplicedPtr(ptr: Links, size: Links, p: int, b: int): Links
    requires p in ptr && p in size && b in size && ptr[p] in ptr
  {
    var after := if b + size[b] == ptr[p] then ptr[ptr[p]] else ptr[p];
    ptr[b := after][p := if p + size[p] == b then after else b]
  }

  /** The pointers and sizes that free_locked writes amount to Freed. */
  lemma FreedLinks(m: Mem, base: int, t: nat, b: int)
    requires Kept(m, base) && IsTaken(m, b) && Between(m.ring, t, b)
    ensures m.ring[t] in m.ptr && m.ring[t] in m.size && b in m.size
    ensures m.ptr[m.ring[t]] in m.ptr && m.ptr[m.ring[t]] in m.size
    ensures var p := m.ring[t]; var m' := Freed(m, t, b);
            m'.size == SplicedSize(m.ptr, m.size, p, b) && m'.ptr == SplicedPtr(m.ptr, m.size, p, b)
  {
    Neighbours(m, base, t);
    assert Placed(m.size, m.lo, m.end, b);
    FreedUp(m, t, b);
  }

  // ---------- malloc_locked ----------

  /** malloc_locked takes the whole of free block i. */
  ghost function TookWhole(m: Mem, i: nat): Mem
    requires 0 < i < |m.ring| && m.ring[i] in m.ptr
  {
    m.(ptr := m.ptr[m.ring[i - 1] := m.ptr[m.ring[i]]], ring := Unlinked(m.ring, i), free := m.free - {m.ring[i]})
  }

  /** malloc_locked takes the first n units of free block i. */
  ghost function TookPart(m: Mem, i: nat, n: int): Mem
    requires 0 < i < |m.ring| && m.ring[i] in m.ptr && m.ring[i] in m.size
  {
    var p := m.ring[i];
    m.(ptr := m.ptr[m.ring[i - 1] := p + n][p + n := m.ptr[p]], size := m.size[p + n := m.size[p] - n][p := n],
       ring := m.ring[i := p + n], free := m.free - {p} + {p + n}, blocks := m.blocks + {p + n})
  }

  /** Block p of n units went from the free blocks to the taken ones. */
  ghost predicate Took(m: Mem, m': Mem, p: int, n: int) {
    && p in m.free && !IsTaken(m, p) && (forall b :: IsTaken(m', b) <==> IsTaken(m, b) || b == p)
    && p in m'.size && m'.size[p] == n && SameTaken(m, m') && m'.lo == m.lo && m'.end == m.end
  }

  lemma TakeWholeKeepsInv(m: Mem, base: int, i: nat)
    requires Inv(m, base) && 0 < i < |m.ring|
    ensures m.ring[i] in m.ptr && m.ring[i] in m.size
    ensures Inv(TookWhole(m, i), base) && Took(m, TookWhole(m, i), m.ring[i], m.size[m.ring[i]])
  {
    Neighbours(m, base, i);
    UnlinkKeepsRing(m.ptr, m.ring, base, i);
    GapsWithout(m, base, i);
    CompleteUnlinked(m.ring, m.free, i);
    forall c | IsTaken(m, c) ensures c in m.size {
      assert Placed(m.size, m.lo, m.end, c);
    }
  }

  lemma GapsWithout(m: Mem, base: int, i: nat)
    requires Kept(m, base) && Gaps(m, {}) && 0 < i < |m.ring| && m.ring[i] in m.ptr
    ensures Gaps(TookWhole(m, i), {})
  {
    var m' := TookWhole(m, i);
    forall j: nat | 0 < j < |m'.ring| - 1 ensures GapAfter(m'.size, m'.ring, j) {
      if j == i - 1 {
        Neighbours(m, base, j);
        assert m.ring[i] < m.ring[i + 1];
      } else {
        assert GapAfter(m.size, m.ring, if j < i then j else j + 1);
      }
    }
  }

  lemma TakePartKeeps(m: Mem, base: int, i: nat, n: int)
    requires Kept(m, base) && 0 < i < |m.ring| && m.ring[i] in m.ptr && m.ring[i] in m.size && 0 < n < m.size[m.ring[i]]
    ensures Kept(TookPart(m, i, n), base)
  {
    Neighbours(m, base, i);
    SplitBlock(m.size, m.blocks, m.lo, m.end, m.ring[i], n);
    ReplaceKeepsRing(m.ptr, m.ring, base, i, m.ring[i] + n);
  }

  lemma TakePartTakes(m: Mem, base: int, i: nat, n: int)
    requires Kept(m, base) && 0 < i < |m.ring| && m.ring[i] in m.ptr && m.ring[i] in m.size && 0 < n < m.size[m.ring[i]]
    ensures Took(m, TookPart(m, i, n), m.ring[i], n)
  {
    SplitBlock(m.size, m.blocks, m.lo, m.end, m.ring[i], n);
    forall c | IsTaken(m, c) ensures c in m.size {
      assert Placed(m.size, m.lo, m.end, c);
    }
  }

  lemma TakePartKeepsInv(m: Mem, base: int, i: nat, n: int)
    requires Inv(m, base) && 0 < i < |m.ring| && m.ring[i] in m.ptr && m.ring[i] in m.size && 0 < n < m.size[m.ring[i]]
    ensures Inv(TookPart(m, i, n), base) && Took(m, TookPart(m, i, n), m.ring[i], n)
  {
    TakePartKeeps(m, base, i, n);
    TakePartTakes(m, base, i, n);
    TakePartGaps(m, base, i, n);
    CompleteReplaced(m.ring, m.free, i, m.ring[i] + n);
  }

  lemma CompleteLinked(ring: seq<int>, free: set<int>, t: nat, b: int)
    requires t < |ring| && Complete(ring, free)
    ensures Complete(Linked(ring, t, b), free + {b})
  {
    forall x | x in free + {b} ensures OnRing(Linked(ring, t, b), x) {
      if x != b {
        assert OnRing(ring, x);
      }
    }
  }

  lemma CompleteUnlinked(ring: seq<int>, free: set<int>, i: nat)
    requires i < |ring| && Complete(ring, free)
    ensures Complete(Unlinked(ring, i), free - {ring[i]})
  {
    forall x | x in free - {ring[i]} ensures OnRing(Unlinked(ring, i), x) {
      assert OnRing(ring, x);
    }
  }

  lemma CompleteReplaced(ring: seq<int>, free: set<int>, i: nat, b: int)
    requires 0 < i < |ring| && Sorted(ring)
    ensures Complete(ring, free) ==> Complete(ring[i := b], free - {ring[i]} + {b})
  {
    if Complete(ring, free) {
      forall x | x in free - {ring[i]} + {b} ensures OnRing(ring[i := b], x) {
        if x == b {
          assert ring[i := b][i] == b;
        } else {
          assert OnRing(ring, x);
          var j :| 0 <= j < |ring| && ring[j] == x;
          assert ring[i := b][j] == x;
        }
      }
    }
  }

  lemma TakePartGaps(m: Mem, base: int, i: nat, n: int)
    requires Kept(m, base) && Gaps(m, {}) && 0 < i < |m.ring| && m.ring[i] in m.ptr && m.ring[i] in m.size
    requires 0 < n < m.size[m.ring[i]]
    ensures Gaps(TookPart(m, i, n), {})
  {
    var m' := TookPart(m, i, n);
    forall j: nat | 0 < j < |m.ring| - 1 ensures GapAfter(m'.size, m'.ring, j) {
      assert GapAfter(m.size, m.ring, j);
      Neighbours(m, base, j);
      Neighbours(m, base, i);
    }
  }

  // ---------- morecore ----------

  /** The heap grows to end', the new memory being one taken block. */
  ghost function Extended(m: Mem, end': int): Mem {
    m.(size := m.size[m.end := end' - m.end], blocks := m.blocks + {m.end}, end := end')
  }

  lemma ExtendKeepsInv(m: Mem, base: int, end': int)
    requires Inv(m, base) && m.end < end'
    ensures var m' := Extended(m, end');
            && Inv(m', base) && SameTaken(m, m') && (forall b :: IsTaken(m', b) <==> IsTaken(m, b) || b == m.end)
            && !IsTaken(m, m.end) && Between(m.ring, |m.ring| - 1, m.end)
  {
    EnlargeHeap(m.size, m.blocks, m.lo, m.end, end');
    Neighbours(m, base, |m.ring| - 1);
    var m' := Extended(m, end');
    forall i: nat | 0 < i < |m.ring| - 1 ensures GapAfter(m'.size, m'.ring, i) {
      assert GapAfter(m.size, m.ring, i);
      Neighbours(m, base, i);
    }
    forall c | IsTaken(m, c) ensures c in m.size {
      assert Placed(m.size, m.lo, m.end, c);
    }
  }

  /** The last node of the ring ends where the heap ends. */
  ghost predicate LastTouchesEnd(m: Mem) {
    |m.ring| > 0 && m.ring[|m.ring| - 1] in m.size && m.ring[|m.ring| - 1] + m.size[m.ring[|m.ring| - 1]] == m.end
  }

  /** What morecore makes of the heap. */
  ghost function Grown(m: Mem, end': int): Mem
    requires |m.ring| > 0 && m.ring[|m.ring| - 1] in m.ptr
  {
    Freed(Extended(m, end'), |m.ring| - 1, m.end)
  }

  lemma GrowKeepsInv(m: Mem, base: int, end': int)
    requires Inv(m, base) && m.end < end'
    ensures m.ring[|m.ring| - 1] in m.ptr
    ensures var m' := Grown(m, end');
            && Inv(m', base) && SameTaken(m, m') && (forall b :: IsTaken(m', b) <==> IsTaken(m, b))
            && m'.end == end' && m'.lo == m.lo
  {
    var m1, t := Extended(m, end'), |m.ring| - 1;
    ExtendKeepsInv(m, base, end');
    FreeKeepsInv(m1, base, t, m.end);
    SameTakenTwice(m, m1, Freed(m1, t, m.end));
  }

  lemma GrowShape(m: Mem, end': int)
    requires |m.ring| > 0 && m.ring[|m.ring| - 1] in m.ptr && m.ring[|m.ring| - 1] in m.size && m.ring[|m.ring| - 1] < m.end < end'
    ensures var m' := Grown(m, end'); var p := m.ring[|m.ring| - 1];
            if LastTouchesEnd(m) then m'.ring == m.ring && p in m'.size && m'.size[p] == m.size[p] + (end' - m.end)
            else m'.ring == m.ring + [m.end] && m.end in m'.size && m'.size[m.end] == end' - m.end
    ensures forall x :: x in m.size && x != m.end && (x != m.ring[|m.ring| - 1] || !LastTouchesEnd(m)) ==>
              x in Grown(m, end').size && Grown(m, end').size[x] == m.size[x]
  {
    var m1, t := Extended(m, end'), |m.ring| - 1;
    var m2 := Joined(m1, t, m.end);
    assert m2.ring == m.ring + [m.end];
    assert Fused(m2, t + 1) == m2;
    assert Unlinked(m2.ring, t + 1) == m.ring;
  }

  /** Afterwards the last free block reaches the new end and is at least as large as
      the new memory; it is a new node unless the old last one touched the old end. */
  lemma GrowMeaning(m: Mem, base: int, end': int)
    requires Inv(m, base) && m.end < end'
    ensures m.ring[|m.ring| - 1] in m.ptr
    ensures var m' := Grown(m, end');
            && |m'.ring| > 1 && LastTouchesEnd(m') && m'.size[m'.ring[|m'.ring| - 1]] >= end' - m.end
            && m'.ring == (if LastTouchesEnd(m) then m.ring else m.ring + [m.end])
  {
    Neighbours(m, base, |m.ring| - 1);
    GrowKeepsInv(m, base, end');
    GrowShape(m, end');
  }
}
