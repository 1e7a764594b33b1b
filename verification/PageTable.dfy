/** Two-level page tables and reference-counted frames (kern/mm/pmm.c).

    Any number of address spaces share one physical memory.  Frames hold page
    directories, page tables or data, or are free.  Seen from outside, the
    tables are one flat map from (address space, page) to a present entry. */
module PageTable {
  import opened Paging
  import opened Wrappers

  type Bytes = seq<int>
  datatype Key = Key(root: Frame, page: nat)    // a page of one address space
  type FlatMap = map<Key, Word>

  // ---------- flat maps and the number of mappings of a frame ----------

  ghost function MappingsOf(flat: FlatMap, f: Frame): set<Key> {
    set k | k in flat && FrameOf(flat[k]) == f
  }

  ghost function Refs(flat: FlatMap, f: Frame): nat {
    |MappingsOf(flat, f)|
  }

  lemma RefsAfterRemove(flat: FlatMap, k: Key, f: Frame)
    requires k in flat
    ensures Refs(flat - {k}, f) == Refs(flat, f) - (if FrameOf(flat[k]) == f then 1 else 0)
  {
    if FrameOf(flat[k]) == f {
      assert MappingsOf(flat - {k}, f) == MappingsOf(flat, f) - {k};
    } else {
      assert MappingsOf(flat - {k}, f) == MappingsOf(flat, f);
    }
  }

  lemma RefsAfterAdd(flat: FlatMap, k: Key, w: Word, f: Frame)
    requires k !in flat
    ensures Refs(flat[k := w], f) == Refs(flat, f) + (if FrameOf(w) == f then 1 else 0)
  {
    if FrameOf(w) == f {
      assert MappingsOf(flat[k := w], f) == MappingsOf(flat, f) + {k};
    } else {
      assert MappingsOf(flat[k := w], f) == MappingsOf(flat, f);
    }
  }

  lemma RefsPositive(flat: FlatMap, k: Key)
    requires k in flat
    ensures Refs(flat, FrameOf(flat[k])) > 0
  {
    assert k in MappingsOf(flat, FrameOf(flat[k]));
  }

  // ---------- the tables ----------

  type Tables = map<Frame, seq<Word>>

  /** One word of a frame used as a table. */
  function SetEntry(t: Tables, f: Frame, i: nat, w: Word): Tables
    requires f in t && i < |t[f]|
  {
    var e: seq<Word> := t[f];
    t[f := e[i := w]]
  }

  ghost predicate WellFormed(t: Tables, roots: set<Frame>) {
    && roots <= t.Keys
    && (forall f :: f in t ==> |t[f]| == NENTRY)
    && (forall r, d :: r in roots && 0 <= d < PDX(USER_PAGES) && Present(t[r][d]) ==>
          FrameOf(t[r][d]) in t && FrameOf(t[r][d]) !in roots)
  }

  /** A directory entry. */
  datatype Slot = Slot(root: Frame, index: nat)

  /** Every page table knows the directory entry it hangs from, so that no table
      is used twice. */
  ghost predicate Owned(t: Tables, roots: set<Frame>, owner: map<Frame, Slot>)
    requires WellFormed(t, roots)
  {
    forall r, d {:trigger OwnedAt(t, owner, r, d)} :: r in roots && 0 <= d < PDX(USER_PAGES) ==> OwnedAt(t, owner, r, d)
  }

  ghost predicate OwnedAt(t: Tables, owner: map<Frame, Slot>, r: Frame, d: int) {
    r in t && 0 <= d < |t[r]| && Present(t[r][d]) ==> FrameOf(t[r][d]) in owner && owner[FrameOf(t[r][d])] == Slot(r, d)
  }

  ghost predicate HasTable(t: Tables, roots: set<Frame>, k: Key)
    requires WellFormed(t, roots)
  {
    k.root in roots && k.page < USER_PAGES && Present(t[k.root][PDX(k.page)])
  }

  /** The walk of the hardware: the entry of a page, or 0 without a table. */
  ghost function Walk(t: Tables, roots: set<Frame>, k: Key): Word
    requires WellFormed(t, roots) && k.root in roots && k.page < USER_PAGES
  {
    var pde := t[k.root][PDX(k.page)];
    if Present(pde) then t[FrameOf(pde)][PTX(k.page)] else 0
  }

  ghost predicate Mapped(t: Tables, roots: set<Frame>, k: Key)
    requires WellFormed(t, roots)
  {
    k.root in roots && k.page < USER_PAGES && Present(Walk(t, roots, k))
  }

  /** The tables say exactly what the flat map says. */
  ghost predicate Represents(t: Tables, roots: set<Frame>, flat: FlatMap)
    requires WellFormed(t, roots)
  {
    forall k: Key {:trigger ShownAt(t, roots, flat, k)} :: ShownAt(t, roots, flat, k)
  }

  ghost predicate ShownAt(t: Tables, roots: set<Frame>, flat: FlatMap, k: Key)
    requires WellFormed(t, roots)
  {
    (k in flat <==> Mapped(t, roots, k)) && (k in flat ==> flat[k] == Walk(t, roots, k))
  }

  ghost function AfterWrite(flat: FlatMap, k: Key, w: Word): FlatMap {
    if Present(w) then flat[k := w] else flat - {k}
  }

  /** Writing the entry of one page changes the flat map at that page only. */
  lemma WriteEntry(t: Tables, roots: set<Frame>, owner: map<Frame, Slot>, flat: FlatMap, k: Key, w: Word, t': Tables)
    requires WellFormed(t, roots) && Owned(t, roots, owner) && Represents(t, roots, flat)
    requires HasTable(t, roots, k)
    requires t' == SetEntry(t, FrameOf(t[k.root][PDX(k.page)]), PTX(k.page), w)
    ensures WellFormed(t', roots) && Owned(t', roots, owner) && HasTable(t', roots, k)
    ensures Represents(t', roots, AfterWrite(flat, k, w))
  {
    assert forall r' :: r' in roots ==> t'[r'] == t[r'];
    forall q: Key | q.root in roots && q.page < USER_PAGES
      ensures Walk(t', roots, q) == if q == k then w else Walk(t, roots, q)
    {
      assert OwnedAt(t, owner, k.root, PDX(k.page)) && OwnedAt(t, owner, q.root, PDX(q.page));
      if PDX(q.page) == PDX(k.page) && PTX(q.page) == PTX(k.page) {
        SplitPage(k.page, q.page);
      }
    }
    forall r, d | r in roots && 0 <= d < PDX(USER_PAGES) ensures OwnedAt(t', owner, r, d) {
      assert OwnedAt(t, owner, r, d);
    }
    forall q: Key ensures ShownAt(t', roots, AfterWrite(flat, k, w), q) {
      assert ShownAt(t, roots, flat, q);
    }
  }

  /** Hanging a fresh zeroed table into an empty directory entry maps nothing. */
  lemma AddTable(t: Tables, roots: set<Frame>, owner: map<Frame, Slot>, flat: FlatMap,
                 r: Frame, d: nat, f: Frame, pde: Word, t': Tables)
    requires WellFormed(t, roots) && Owned(t, roots, owner) && Represents(t, roots, flat)
    requires r in roots && d < PDX(USER_PAGES)
    requires !Present(t[r][d]) && f !in t && Present(pde) && FrameOf(pde) == f
    requires t' == SetEntry(t[f := seq(NENTRY, _ => 0)], r, d, pde)
    ensures WellFormed(t', roots) && Owned(t', roots, owner[f := Slot(r, d)]) && Represents(t', roots, flat)
  {
    forall r', d' | r' in roots && 0 <= d' < PDX(USER_PAGES)
      ensures (r', d') != (r, d) ==> t'[r'][d'] == t[r'][d']
    {
    }
    forall q: Key | q.root in roots && q.page < USER_PAGES ensures Walk(t', roots, q) == Walk(t, roots, q) {
    }
    var owner' := owner[f := Slot(r, d)];
    forall r', d' | r' in roots && 0 <= d' < PDX(USER_PAGES) ensures OwnedAt(t', owner', r', d') {
      assert OwnedAt(t, owner, r', d');
    }
    forall q: Key ensures ShownAt(t', roots, flat, q) {
      assert ShownAt(t, roots, flat, q);
    }
  }

  // ---------- frames that lose their last mapping ----------

  ghost function Orphans(before: FlatMap, after: FlatMap, data: set<Frame>): set<Frame> {
    set f | f in data && Refs(before, f) > 0 && Refs(after, f) == 0
  }

  lemma OrphansOfOne(flat: FlatMap, k: Key, data: set<Frame>)
    requires k in flat && FrameOf(flat[k]) in data
    ensures var f := FrameOf(flat[k]);
            Orphans(flat, flat - {k}, data) == if Refs(flat, f) == 1 then {f} else {}
  {
    RefsPositive(flat, k);
    forall f | f in data
      ensures Refs(flat - {k}, f) == Refs(flat, f) - (if FrameOf(flat[k]) == f then 1 else 0)
    {
      RefsAfterRemove(flat, k, f);
    }
  }

  lemma OrphansOfNone(flat: FlatMap, k: Key, data: set<Frame>)
    requires k !in flat
    ensures flat - {k} == flat && Orphans(flat, flat - {k}, data) == {}
  {
    assert flat - {k} == flat;
  }

  lemma RefsOfLess(flat: FlatMap, ks: set<Key>, f: Frame)
    ensures Refs(flat - ks, f) <= Refs(flat, f)
  {
    var a, b := MappingsOf(flat - ks, f), MappingsOf(flat, f);
    assert a <= b;
    assert b == a + (b - a);
  }

  /** Removing mappings in two batches orphans what removing them at once does. */
  lemma OrphansCompose(flat: FlatMap, ks: set<Key>, k: Key, data: set<Frame>)
    ensures Orphans(flat, flat - ks, data) + Orphans(flat - ks, flat - ks - {k}, data - Orphans(flat, flat - ks, data))
         == Orphans(flat, flat - ks - {k}, data)
  {
    forall f ensures Refs(flat - ks - {k}, f) <= Refs(flat - ks, f) <= Refs(flat, f) {
      RefsOfLess(flat, ks, f);
      RefsOfLess(flat - ks, {k}, f);
    }
  }

  // ---------- frame accounting ----------

  datatype Frames = Frames(data: set<Frame>, free: set<Frame>, ref: map<Frame, int>)

  /** Free and data frames are apart, every mapping names a data frame, and
      reference counts are exact but for one count taken in advance. */
  ghost predicate Counted(flat: FlatMap, p: Frames, extra: int) {
    && (forall f :: f in p.free ==> f !in p.data && f in p.ref) && (forall f :: f in p.data ==> f in p.ref)
    && (forall f :: f in p.free ==> p.ref[f] == 0)
    && (forall k :: k in flat ==> FrameOf(flat[k]) in p.data)
    && (forall f {:trigger CountedAt(flat, p, f, extra)} :: f in p.data ==> CountedAt(flat, p, f, extra))
  }

  ghost predicate CountedAt(flat: FlatMap, p: Frames, f: Frame, extra: int) {
    f in p.ref && p.ref[f] == Refs(flat, f) + if f == extra then 1 else 0
  }

  /** The accounting of page_remove_pte: one count less, and the frame goes back
      when that was the last one. */
  ghost function Dropped(p: Frames, f: Frame): Frames
    requires f in p.ref
  {
    if p.ref[f] == 1 then Frames(p.data - {f}, p.free + {f}, p.ref[f := 0])
    else p.(ref := p.ref[f := p.ref[f] - 1])
  }

  lemma DropMapping(flat: FlatMap, p: Frames, k: Key, extra: int)
    requires Counted(flat, p, extra) && k in flat
    ensures var p' := Dropped(p, FrameOf(flat[k]));
            && Counted(flat - {k}, p', extra)
            && var dead := Given(flat, flat - {k}, p.data, extra);
               p'.data == p.data - dead && p'.free == p.free + dead
  {
    var f, flat' := FrameOf(flat[k]), flat - {k};
    forall g ensures Refs(flat', g) == Refs(flat, g) - (if f == g then 1 else 0) {
      RefsAfterRemove(flat, k, g);
    }
    OrphansOfOne(flat, k, p.data);
    RefsPositive(flat, k);
    assert CountedAt(flat, p, f, extra);
    forall q | q in flat' ensures FrameOf(flat'[q]) in Dropped(p, f).data {
      RefsPositive(flat', q);
    }
    forall g | g in Dropped(p, f).data ensures CountedAt(flat', Dropped(p, f), g, extra) {
      assert CountedAt(flat, p, g, extra);
    }
  }

  lemma AddMapping(flat: FlatMap, p: Frames, k: Key, w: Word)
    requires FrameOf(w) in p.data && Counted(flat, p, FrameOf(w)) && k !in flat
    ensures Counted(flat[k := w], p, -1)
  {
    var flat' := flat[k := w];
    forall g | g in p.data ensures CountedAt(flat', p, g, -1) {
      assert CountedAt(flat, p, g, FrameOf(w));
      RefsAfterAdd(flat, k, w, g);
    }
  }

  /** The frames given back when the flat map shrinks. */
  ghost function Given(before: FlatMap, after: FlatMap, data: set<Frame>, extra: int): set<Frame> {
    Orphans(before, after, data) - (if extra >= 0 then {extra} else {})
  }

  /** The accounting of unmapping page k, mapped or not. */
  ghost function Removed(p: Frames, flat: FlatMap, k: Key): Frames
    requires k in flat ==> FrameOf(flat[k]) in p.ref
  {
    if k in flat then Dropped(p, FrameOf(flat[k])) else p
  }

  /** From one flat map to another, frames are given back exactly when they lose
      their last mapping. */
  ghost predicate Settled(flat: FlatMap, p: Frames, flat': FlatMap, p': Frames) {
    && p'.data == p.data - Orphans(flat, flat', p.data)
    && p'.free == p.free + Orphans(flat, flat', p.data)
  }

  lemma RemovedIsSettled(flat: FlatMap, p: Frames, k: Key)
    requires Counted(flat, p, -1)
    ensures Counted(flat - {k}, Removed(p, flat, k), -1)
    ensures Settled(flat, p, flat - {k}, Removed(p, flat, k))
  {
    if k in flat {
      DropMapping(flat, p, k, -1);
    } else {
      OrphansOfNone(flat, k, p.data);
    }
  }

  lemma SettledCompose(flat: FlatMap, p: Frames, ks: set<Key>, p1: Frames, k: Key, p2: Frames)
    requires Settled(flat, p, flat - ks, p1) && Settled(flat - ks, p1, flat - ks - {k}, p2)
    ensures Settled(flat, p, flat - ks - {k}, p2)
  {
    OrphansCompose(flat, ks, k, p.data);
  }

  ghost function TakeRef(p: Frames, f: Frame): Frames
    requires f in p.ref
  {
    p.(ref := p.ref[f := p.ref[f] + 1])
  }

  /** The accounting of page_insert: the count of the new frame goes up first,
      then the old mapping is dropped unless it is the same frame. */
  ghost function Inserted(p: Frames, flat: FlatMap, k: Key, page: Frame): Frames
    requires page in p.ref && (k in flat ==> FrameOf(flat[k]) in p.ref)
  {
    if k in flat && FrameOf(flat[k]) == page then p else Removed(TakeRef(p, page), flat, k)
  }

  lemma InsertedIsSettled(flat: FlatMap, p: Frames, k: Key, w: Word)
    requires Counted(flat, p, -1) && FrameOf(w) in p.data
    ensures Counted(flat[k := w], Inserted(p, flat, k, FrameOf(w)), -1)
    ensures Settled(flat, p, flat[k := w], Inserted(p, flat, k, FrameOf(w)))
  {
    var page := FrameOf(w);
    if k in flat && FrameOf(flat[k]) == page {
      RemapSameFrame(flat, p, k, w);
    } else {
      var p1 := TakeRef(p, page);
      forall g | g in p1.data ensures CountedAt(flat, p1, g, page) {
        assert CountedAt(flat, p, g, -1);
      }
      RemovedWhileHeld(flat, p1, k, page);
      AddMapping(flat - {k}, Removed(p1, flat, k), k, w);
      ReplaceMapping(flat, k, w, p.data);
    }
  }

  lemma RemovedWhileHeld(flat: FlatMap, p: Frames, k: Key, held: Frame)
    requires Counted(flat, p, held) && held in p.data && (k in flat ==> FrameOf(flat[k]) != held)
    ensures var p' := Removed(p, flat, k);
            && Counted(flat - {k}, p', held) && held in p'.data
            && p'.data == p.data - Given(flat, flat - {k}, p.data, held)
            && p'.free == p.free + Given(flat, flat - {k}, p.data, held)
  {
    if k in flat {
      DropMapping(flat, p, k, held);
    } else {
      OrphansOfNone(flat, k, p.data);
    }
  }

  /** Replacing what page k maps by a frame whose reference is already taken. */
  lemma ReplaceMapping(flat: FlatMap, k: Key, w: Word, data: set<Frame>)
    ensures (flat - {k})[k := w] == flat[k := w]
    ensures Orphans(flat, flat[k := w], data) == Given(flat, flat - {k}, data, FrameOf(w))
  {
    var less := flat - {k};
    assert less[k := w] == flat[k := w];
    forall g ensures Refs(less[k := w], g) == Refs(less, g) + (if FrameOf(w) == g then 1 else 0) {
      RefsAfterAdd(less, k, w, g);
    }
  }

  /** Mapping the same frame again at the same page. */
  lemma RemapSameFrame(flat: FlatMap, p: Frames, k: Key, w: Word)
    requires k in flat && FrameOf(w) == FrameOf(flat[k]) && Counted(flat, p, -1)
    ensures Counted(flat[k := w], p, -1) && Orphans(flat, flat[k := w], p.data) == {}
  {
    var flat' := flat[k := w];
    forall g ensures Refs(flat', g) == Refs(flat, g) {
      assert MappingsOf(flat', g) == MappingsOf(flat, g);
    }
    forall g | g in p.data ensures CountedAt(flat', p, g, -1) {
      assert CountedAt(flat, p, g, -1);
    }
  }

  ghost function Range(root: Frame, start: nat, end: nat): set<Key> {
    set v | start <= v < end :: Key(root, v)
  }

  lemma RangeStart(flat: FlatMap, p: Frames, root: Frame, start: nat)
    ensures flat - Range(root, start, start) == flat
    ensures Settled(flat, p, flat, p)
  {
    assert Range(root, start, start) == {};
    assert Orphans(flat, flat, p.data) == {};
  }

  lemma SingleRange(flat: FlatMap, k: Key)
    ensures flat - Range(k.root, k.page, k.page + 1) == flat - {k}
  {
    assert Range(k.root, k.page, k.page + 1) == {k};
  }

  /** Pages under a missing table are not mapped, so skipping them is harmless. */
  lemma SkipTable(t: Tables, roots: set<Frame>, flat: FlatMap, k: Key)
    requires WellFormed(t, roots) && Represents(t, roots, flat) && k.root in roots && k.page < USER_PAGES
    requires !Present(t[k.root][PDX(k.page)])
    ensures forall u :: k.page <= u < NextTable(k.page) ==> Key(k.root, u) !in flat
    ensures flat - Range(k.root, k.page, NextTable(k.page)) == flat
  {
    forall u | k.page <= u < NextTable(k.page) ensures Key(k.root, u) !in flat {
      assert PDX(u) == PDX(k.page) && ShownAt(t, roots, flat, Key(k.root, u));
    }
  }

  /** Sweeping on from v to v' after having swept from start to v. */
  lemma SettledSweep(flat: FlatMap, p: Frames, root: Frame, start: nat, v: nat, v': nat, p1: Frames, p2: Frames)
    requires start <= v < v'
    requires forall u :: v < u < v' ==> Key(root, u) !in flat - Range(root, start, v)
    requires Settled(flat, p, flat - Range(root, start, v), p1)
    requires Settled(flat - Range(root, start, v), p1, flat - Range(root, start, v) - Range(root, v, v'), p2)
    ensures flat - Range(root, start, v) - Range(root, v, v') == flat - Range(root, start, v')
    ensures forall u :: v < u < v' ==> Key(root, u) !in flat
    ensures Settled(flat, p, flat - Range(root, start, v'), p2)
  {
    var less, k := flat - Range(root, start, v), Key(root, v);
    assert Range(root, start, v) + Range(root, v, v') == Range(root, start, v');
    assert less - Range(root, v, v') == less - {k};
    SettledCompose(flat, p, Range(root, start, v), p1, k, p2);
    forall u | v < u < v' ensures Key(root, u) !in flat {
      assert Key(root, u) !in Range(root, start, v);
    }
  }

  lemma RangeEnd(flat: FlatMap, root: Frame, start: nat, end: nat, v: nat)
    requires start <= end <= v
    requires forall u :: end <= u < v ==> Key(root, u) !in flat
    ensures flat - Range(root, start, v) == flat - Range(root, start, end)
  {
  }

  // ---------- copying an address space ----------

  /** Page k is the only one that maps its frame. */
  ghost predicate Sole(flat: FlatMap, k: Key)
    requires k in flat
  {
    forall q :: q in flat && FrameOf(flat[q]) == FrameOf(flat[k]) ==> q == k
  }

  /** What the target of a copy has at page v: a private copy of the source page
      with the same user bits, or what it had before if the source has none. */
  ghost predicate Copied(flat0: FlatMap, bytes0: map<Frame, Bytes>, flat: FlatMap, bytes: map<Frame, Bytes>,
                         src: Frame, dst: Frame, v: nat)
  {
    var a, b := Key(src, v), Key(dst, v);
    if a in flat0 then
      && b in flat && UserBits(flat[b]) == UserBits(flat0[a]) && Sole(flat, b)
      && FrameOf(flat0[a]) in bytes0 && FrameOf(flat[b]) in bytes
      && bytes[FrameOf(flat[b])] == bytes0[FrameOf(flat0[a])]
    else
      (b in flat <==> b in flat0) && (b in flat ==> flat[b] == flat0[b] && SameContents(flat[b], bytes0, bytes))
  }

  /** The frame that word w names holds what it held. */
  ghost predicate SameContents(w: Word, bytes0: map<Frame, Bytes>, bytes: map<Frame, Bytes>) {
    FrameOf(w) in bytes && FrameOf(w) in bytes0 && bytes[FrameOf(w)] == bytes0[FrameOf(w)]
  }

  /** Nothing outside of the pages [start, end) of dst has changed. */
  ghost predicate SameElsewhere(flat0: FlatMap, flat: FlatMap, dst: Frame, start: nat, end: nat) {
    forall k: Key :: !(k.root == dst && start <= k.page < end) ==>
      (k in flat <==> k in flat0) && (k in flat ==> flat[k] == flat0[k])
  }

  /** All memory but that of the pages [start, end) of dst is the same. */
  ghost predicate SameBytes(flat: FlatMap, bytes0: map<Frame, Bytes>, bytes: map<Frame, Bytes>, dst: Frame, start: nat, end: nat) {
    forall k :: k in flat && !(k.root == dst && start <= k.page < end) ==> SameContents(flat[k], bytes0, bytes)
  }

  /** One page copied onto a frame that was free a moment ago. */
  ghost predicate CopyStep(flat: FlatMap, bytes: map<Frame, Bytes>, data: set<Frame>,
                           flat': FlatMap, bytes': map<Frame, Bytes>, src: Frame, dst: Frame, v: nat, g: Frame)
  {
    && Key(src, v) in flat && Present(flat[Key(src, v)]) && FrameOf(flat[Key(src, v)]) in bytes && g !in data
    && bytes' == bytes[g := bytes[FrameOf(flat[Key(src, v)])]]
    && flat' == flat[Key(dst, v) := PteWord(g, UserBits(flat[Key(src, v)]))]
  }

  lemma CopyStepEffect(flat0: FlatMap, bytes0: map<Frame, Bytes>, flat: FlatMap, bytes: map<Frame, Bytes>, data: set<Frame>,
                       flat': FlatMap, bytes': map<Frame, Bytes>, src: Frame, dst: Frame, start: nat, v: nat, g: Frame)
    requires src != dst && start <= v && CopyStep(flat, bytes, data, flat', bytes', src, dst, v, g)
    requires forall k :: k in flat ==> FrameOf(flat[k]) in data
    requires SameElsewhere(flat0, flat, dst, start, v) && SameBytes(flat, bytes0, bytes, dst, start, v)
    ensures SameElsewhere(flat0, flat', dst, start, v + 1) && SameBytes(flat', bytes0, bytes', dst, start, v + 1)
    ensures Copied(flat0, bytes0, flat', bytes', src, dst, v)
  {
  }

  lemma CopyStepKeeps(flat0: FlatMap, bytes0: map<Frame, Bytes>, flat: FlatMap, bytes: map<Frame, Bytes>, data: set<Frame>,
                      flat': FlatMap, bytes': map<Frame, Bytes>, src: Frame, dst: Frame, v: nat, g: Frame, u: nat)
    requires src != dst && u < v && CopyStep(flat, bytes, data, flat', bytes', src, dst, v, g)
    requires forall k :: k in flat ==> FrameOf(flat[k]) in data
    requires Copied(flat0, bytes0, flat, bytes, src, dst, u)
    ensures Copied(flat0, bytes0, flat', bytes', src, dst, u)
  {
  }

  /** How far the copy has come: everything in [start, v) is as it should be. */
  ghost predicate CopiedTo(flat0: FlatMap, bytes0: map<Frame, Bytes>, flat: FlatMap, bytes: map<Frame, Bytes>,
                           src: Frame, dst: Frame, start: nat, v: nat, end: nat)
  {
    && SameElsewhere(flat0, flat, dst, start, if v < end then v else end)
    && SameBytes(flat, bytes0, bytes, dst, start, if v < end then v else end)
    && forall u :: start <= u < v && u < end ==> Copied(flat0, bytes0, flat, bytes, src, dst, u)
  }

  /** Pages the source does not have are skipped. */
  lemma CopySkip(flat0: FlatMap, bytes0: map<Frame, Bytes>, flat: FlatMap, bytes: map<Frame, Bytes>,
                 src: Frame, dst: Frame, start: nat, v: nat, next: nat, end: nat)
    requires src != dst && start <= v < end && v <= next
    requires CopiedTo(flat0, bytes0, flat, bytes, src, dst, start, v, end)
    requires forall u :: v <= u < next ==> Key(src, u) !in flat
    ensures CopiedTo(flat0, bytes0, flat, bytes, src, dst, start, next, end)
  {
    forall u | start <= u < next && u < end ensures Copied(flat0, bytes0, flat, bytes, src, dst, u) {
      if u >= v {
        assert Key(src, u) !in flat0;
      }
    }
  }

  lemma CopyAdvance(flat0: FlatMap, bytes0: map<Frame, Bytes>, flat: FlatMap, bytes: map<Frame, Bytes>, data: set<Frame>,
                    flat': FlatMap, bytes': map<Frame, Bytes>, src: Frame, dst: Frame,
                    start: nat, v: nat, next: nat, end: nat, g: Frame)
    requires src != dst && start <= v < end && next == v + 1 && CopyStep(flat, bytes, data, flat', bytes', src, dst, v, g)
    requires forall k :: k in flat ==> FrameOf(flat[k]) in data
    requires CopiedTo(flat0, bytes0, flat, bytes, src, dst, start, v, end)
    ensures CopiedTo(flat0, bytes0, flat', bytes', src, dst, start, next, end)
  {
    CopyStepEffect(flat0, bytes0, flat, bytes, data, flat', bytes', src, dst, start, v, g);
    forall u | start <= u < v ensures Copied(flat0, bytes0, flat', bytes', src, dst, u) {
      CopyStepKeeps(flat0, bytes0, flat, bytes, data, flat', bytes', src, dst, v, g, u);
    }
  }

  /** Of all directory entries only the one of page k may have become present. */
  ghost predicate TableAdded(t: Tables, t': Tables, roots: set<Frame>, k: Key)
    requires WellFormed(t, roots) && WellFormed(t', roots)
  {
    forall r, d {:trigger AddedAt(t, t', k, r, d)} :: r in roots && 0 <= d < PDX(USER_PAGES) ==> AddedAt(t, t', k, r, d)
  }

  ghost predicate AddedAt(t: Tables, t': Tables, k: Key, r: Frame, d: int) {
    r in t && r in t' && 0 <= d < |t[r]| && d < |t'[r]| ==>
      (Present(t'[r][d]) <==> Present(t[r][d]) || (r == k.root && d == PDX(k.page)))
  }

  /** The directories are as before. */
  ghost predicate SameDirs(t: Tables, t': Tables, roots: set<Frame>) {
    forall r :: r in roots ==> r in t && r in t' && t'[r] == t[r]
  }

  // ---------- the frames a copy takes ----------

  /** A copy of pages from start on, seen from before: tables, mappings, frames. */
  datatype Job = Job(t: Tables, roots: set<Frame>, flat: FlatMap, p: Frames, src: Frame, dst: Frame, start: nat)

  ghost predicate Possible(j: Job) {
    WellFormed(j.t, j.roots) && j.src in j.roots && j.dst in j.roots && j.src != j.dst && Counted(j.flat, j.p, -1)
  }

  /** The pages below v to copy. */
  ghost function Copies(j: Job, v: nat): set<nat> {
    set u | j.start <= u < v && Key(j.src, u) in j.flat
  }

  /** The target has no page table for page u. */
  ghost predicate Lacks(j: Job, u: nat)
    requires Possible(j) && u < USER_PAGES
  {
    !Present(j.t[j.dst][PDX(u)])
  }

  /** The directory indices of the page tables that these need. */
  ghost function NewTables(j: Job, v: nat): set<nat>
    requires Possible(j) && v <= USER_PAGES
  {
    set u | u in Copies(j, v) && u < USER_PAGES && Lacks(j, u) :: PDX(u)
  }

  /** The mappings of the target that give way. */
  ghost function Replaced(j: Job, v: nat): set<Key> {
    set u | u in Copies(j, v) :: Key(j.dst, u)
  }

  /** The frames that become free by that. */
  ghost function Gain(j: Job, v: nat): set<Frame> {
    Orphans(j.flat, j.flat - Replaced(j, v), j.p.data)
  }

  /** The free frames when page v is reached. */
  ghost function Left(j: Job, v: nat): int
    requires Possible(j) && v <= USER_PAGES
  {
    |j.p.free| + |Gain(j, v)| - Cost(j, v)
  }

  /** The frames page v takes: its own, and one for a page table it is the first to need. */
  ghost function Takes(j: Job, v: nat): nat
    requires Possible(j) && v < USER_PAGES
  {
    if Lacks(j, v) && PDX(v) !in NewTables(j, v) then 2 else 1
  }

  /** There are enough frames for page v, if it is to be copied. */
  ghost predicate Enough(j: Job, v: nat)
    requires Possible(j)
  {
    v < USER_PAGES && Key(j.src, v) in j.flat ==> Left(j, v) >= Takes(j, v)
  }

  lemma CopiesNext(j: Job, v: nat)
    requires Possible(j) && j.start <= v < USER_PAGES && Key(j.src, v) in j.flat
    ensures Copies(j, v + 1) == Copies(j, v) + {v} && |Copies(j, v + 1)| == |Copies(j, v)| + 1
    ensures Replaced(j, v + 1) == Replaced(j, v) + {Key(j.dst, v)}
    ensures NewTables(j, v + 1) == NewTables(j, v) + (if Lacks(j, v) then {PDX(v)} else {})
    ensures |NewTables(j, v + 1)| == |NewTables(j, v)| + Takes(j, v) - 1
  {
    assert Copies(j, v + 1) == Copies(j, v) + {v};
    forall k ensures k in Replaced(j, v + 1) <==> k in Replaced(j, v) + {Key(j.dst, v)} {
    }
    TablesNext(j, v);
  }

  lemma TablesNext(j: Job, v: nat)
    requires Possible(j) && v < USER_PAGES && Copies(j, v + 1) == Copies(j, v) + {v}
    ensures NewTables(j, v + 1) == NewTables(j, v) + (if Lacks(j, v) then {PDX(v)} else {})
  {
    forall d ensures d in NewTables(j, v + 1) <==> d in NewTables(j, v) || (Lacks(j, v) && d == PDX(v)) {
      if d in NewTables(j, v + 1) {
        var u :| u in Copies(j, v + 1) && u < USER_PAGES && Lacks(j, u) && PDX(u) == d;
      }
      if d in NewTables(j, v) {
        var u :| u in Copies(j, v) && u < USER_PAGES && Lacks(j, u) && PDX(u) == d;
        assert u in Copies(j, v + 1);
      }
      if Lacks(j, v) && d == PDX(v) {
        assert v in Copies(j, v + 1);
      }
    }
  }

  /** Pages the source does not have cost nothing. */
  lemma CopiesSkip(j: Job, v: nat, next: nat)
    requires Possible(j) && v <= next <= USER_PAGES && forall u :: v <= u < next ==> Key(j.src, u) !in j.flat
    ensures Copies(j, next) == Copies(j, v) && Replaced(j, next) == Replaced(j, v) && NewTables(j, next) == NewTables(j, v)
    ensures Left(j, next) == Left(j, v)
  {
    assert Copies(j, next) == Copies(j, v);
  }

  /** Where the copy stands at page v: mappings that have not given way are as they were,
      those that have lead to frames that were not in use, and the account is in order. */
  ghost predicate Accounted(j: Job, v: nat, t: Tables, flat: FlatMap, p: Frames) {
    && Possible(j) && v <= USER_PAGES && WellFormed(t, j.roots) && |p.free| == Left(j, v)
    && HasNewTables(j, v, t) && GaveWay(j.flat, flat, Replaced(j, v), j.p.data - Gain(j, v))
    && j.p.data - Gain(j, v) <= p.data
  }

  /** The target has its old page tables and the new ones. */
  ghost predicate HasNewTables(j: Job, v: nat, t: Tables)
    requires Possible(j) && v <= USER_PAGES && WellFormed(t, j.roots)
  {
    forall d :: 0 <= d < PDX(USER_PAGES) ==> (Present(t[j.dst][d]) <==> Present(j.t[j.dst][d]) || d in NewTables(j, v))
  }

  lemma TableForNext(j: Job, v: nat, t: Tables, t': Tables)
    requires Possible(j) && v < USER_PAGES && WellFormed(t, j.roots) && WellFormed(t', j.roots) && HasNewTables(j, v, t)
    requires TableAdded(t, t', j.roots, Key(j.dst, v))
    requires NewTables(j, v + 1) == NewTables(j, v) + (if Lacks(j, v) then {PDX(v)} else {})
    ensures HasNewTables(j, v + 1, t')
  {
    forall d | 0 <= d < PDX(USER_PAGES)
      ensures Present(t'[j.dst][d]) <==> Present(j.t[j.dst][d]) || d in NewTables(j, v + 1)
    {
      assert AddedAt(t, t', Key(j.dst, v), j.dst, d);
    }
  }

  /** Mapping k is as it was. */
  ghost predicate SameAt(flat0: FlatMap, flat: FlatMap, k: Key) {
    (k in flat <==> k in flat0) && (k in flat ==> flat[k] == flat0[k])
  }

  /** The mappings in over lead to other frames than those in kept, and the others are as
      they were. */
  ghost predicate GaveWay(flat0: FlatMap, flat: FlatMap, over: set<Key>, kept: set<Frame>) {
    && (forall k: Key {:trigger SameAt(flat0, flat, k)} :: k !in over ==> SameAt(flat0, flat, k))
    && (forall k: Key :: k in over ==> k in flat && FrameOf(flat[k]) !in kept)
  }

  lemma AccountStart(j: Job)
    requires Possible(j) && j.start <= USER_PAGES
    ensures Accounted(j, j.start, j.t, j.flat, j.p)
  {
    assert Copies(j, j.start) == {};
    assert Replaced(j, j.start) == {} && NewTables(j, j.start) == {};
    assert j.flat - {} == j.flat;
    assert Gain(j, j.start) == {};
  }

  lemma GainGrows(j: Job, v: nat)
    requires Replaced(j, v + 1) == Replaced(j, v) + {Key(j.dst, v)}
    ensures Gain(j, v) <= Gain(j, v + 1)
  {
    forall f | f in Gain(j, v) ensures f in Gain(j, v + 1) {
      RefsOfLess(j.flat - Replaced(j, v), {Key(j.dst, v)}, f);
      assert j.flat - Replaced(j, v) - {Key(j.dst, v)} == j.flat - Replaced(j, v + 1);
    }
  }

  ghost predicate Maps(flat: FlatMap, f: Frame) {
    exists k :: k in flat && FrameOf(flat[k]) == f
  }

  lemma MapsMeansRefs(flat: FlatMap, f: Frame)
    ensures Maps(flat, f) <==> Refs(flat, f) > 0
  {
    if Maps(flat, f) {
      var k :| k in flat && FrameOf(flat[k]) == f;
      assert k in MappingsOf(flat, f);
    } else {
      assert MappingsOf(flat, f) == {};
    }
  }

  lemma OrphanIff(before: FlatMap, after: FlatMap, data: set<Frame>, f: Frame)
    ensures f in Orphans(before, after, data) <==> f in data && Maps(before, f) && !Maps(after, f)
  {
    MapsMeansRefs(before, f);
    MapsMeansRefs(after, f);
  }

  /** The frames that mapping k to a frame that was free sets free, compared with those that
      giving up the mappings in over, and then k, would have set free at the start. */
  lemma ReplaceOne(flat0: FlatMap, data0: set<Frame>, over: set<Key>, flat: FlatMap, data: set<Frame>, k: Key, w: Word, f: Frame)
    requires k !in over && FrameOf(w) !in data && (forall q :: q in flat ==> FrameOf(flat[q]) in data)
    requires (forall q :: q in flat0 ==> FrameOf(flat0[q]) in data0)
    requires GaveWay(flat0, flat, over, data0 - Orphans(flat0, flat0 - over, data0))
    ensures f in Orphans(flat, flat[k := w], data + {FrameOf(w)}) <==>
            f in Orphans(flat0, flat0 - (over + {k}), data0) && f !in Orphans(flat0, flat0 - over, data0)
  {
    OrphanIff(flat, flat[k := w], data + {FrameOf(w)}, f);
    OrphanIff(flat0, flat0 - (over + {k}), data0, f);
    OrphanIff(flat0, flat0 - over, data0, f);
    if f in Orphans(flat, flat[k := w], data + {FrameOf(w)}) {
      LostHere(flat0, over, flat, k, w, f);
    }
    if f in Orphans(flat0, flat0 - (over + {k}), data0) && f !in Orphans(flat0, flat0 - over, data0) {
      LostThere(flat0, data0, over, flat, data, k, w, f);
    }
  }

  lemma LostHere(flat0: FlatMap, over: set<Key>, flat: FlatMap, k: Key, w: Word, f: Frame)
    requires k !in over && Maps(flat, f) && !Maps(flat[k := w], f)
    requires forall q: Key {:trigger SameAt(flat0, flat, q)} :: q !in over ==> SameAt(flat0, flat, q)
    ensures k in flat0 && FrameOf(flat0[k]) == f && Maps(flat0 - over, f) && !Maps(flat0 - (over + {k}), f)
  {
    var flat', less := flat[k := w], flat0 - (over + {k});
    forall q | q in flat && q != k ensures FrameOf(flat[q]) != f {
      assert q in flat' && flat'[q] == flat[q];
    }
    assert SameAt(flat0, flat, k) && k in flat0 - over;
    forall r | r in less ensures FrameOf(less[r]) != f {
      assert SameAt(flat0, flat, r);
      assert r in flat' && flat'[r] == flat0[r];
    }
  }

  lemma LostThere(flat0: FlatMap, data0: set<Frame>, over: set<Key>, flat: FlatMap, data: set<Frame>, k: Key, w: Word, f: Frame)
    requires k !in over && FrameOf(w) !in data && (forall q :: q in flat ==> FrameOf(flat[q]) in data)
    requires f in data0 && f !in Orphans(flat0, flat0 - over, data0) && Maps(flat0 - over, f) && !Maps(flat0 - (over + {k}), f)
    requires GaveWay(flat0, flat, over, data0 - Orphans(flat0, flat0 - over, data0))
    ensures f in data && Maps(flat, f) && !Maps(flat[k := w], f)
  {
    var flat', less := flat[k := w], flat0 - over;
    var q :| q in less && FrameOf(less[q]) == f;
    assert SameAt(flat0, flat, q);
    forall r | r in flat' ensures FrameOf(flat'[r]) != f {
      if r != k && r !in over {
        assert SameAt(flat0, flat, r);
        assert r in flat0 - (over + {k});
      }
    }
  }

  /** The frames freed by replacing page v are those the account expects. */
  lemma GainNext(j: Job, v: nat, flat: FlatMap, data: set<Frame>, w: Word)
    requires Possible(j) && j.start <= v < USER_PAGES && Key(j.src, v) in j.flat
    requires FrameOf(w) !in data && (forall q :: q in flat ==> FrameOf(flat[q]) in data)
    requires GaveWay(j.flat, flat, Replaced(j, v), j.p.data - Gain(j, v))
    ensures var freed := Orphans(flat, flat[Key(j.dst, v) := w], data + {FrameOf(w)});
            Gain(j, v + 1) == Gain(j, v) + freed && Gain(j, v) !! freed && |Gain(j, v + 1)| == |Gain(j, v)| + |freed|
  {
    var k := Key(j.dst, v);
    var freed := Orphans(flat, flat[k := w], data + {FrameOf(w)});
    CopiesNext(j, v);
    GainGrows(j, v);
    assert k !in Replaced(j, v);
    forall f ensures f in freed <==> f in Gain(j, v + 1) && f !in Gain(j, v) {
      ReplaceOne(j.flat, j.p.data, Replaced(j, v), flat, data, k, w, f);
    }
    assert Gain(j, v + 1) == Gain(j, v) + freed;
  }

  lemma GaveWayNext(flat0: FlatMap, flat: FlatMap, over: set<Key>, kept: set<Frame>, k: Key, w: Word, kept': set<Frame>)
    requires GaveWay(flat0, flat, over, kept) && kept' <= kept && FrameOf(w) !in kept
    ensures GaveWay(flat0, flat[k := w], over + {k}, kept')
  {
    forall q: Key | q !in over + {k} ensures SameAt(flat0, flat[k := w], q) {
      assert SameAt(flat0, flat, q);
    }
  }

  /** Copying page v keeps the account. */
  lemma AccountStep(j: Job, v: nat, next: nat, t: Tables, flat: FlatMap, p: Frames, t': Tables, p': Frames, w: Word)
    requires next == v + 1 && Accounted(j, v, t, flat, p) && j.start <= v < USER_PAGES && Key(j.src, v) in j.flat
    requires Counted(flat, p, -1) && FrameOf(w) in p.free
    requires WellFormed(t', j.roots) && TableAdded(t, t', j.roots, Key(j.dst, v))
    requires var freed := Orphans(flat, flat[Key(j.dst, v) := w], p.data + {FrameOf(w)});
             p'.data == p.data + {FrameOf(w)} - freed && |p'.free| == |p.free| - Takes(j, v) + |freed|
    ensures Accounted(j, next, t', flat[Key(j.dst, v) := w], p')
  {
    CopiesNext(j, v);
    TableForNext(j, v, t, t');
    GainNext(j, v, flat, p.data, w);
    assert |p'.free| == Left(j, v + 1);
    GaveWayNext(j.flat, flat, Replaced(j, v), j.p.data - Gain(j, v), Key(j.dst, v), w, j.p.data - Gain(j, v + 1));
  }

  /** Whether page v is the first to need its page table can be seen from the tables. */
  lemma TakesNow(j: Job, v: nat, t: Tables, flat: FlatMap, p: Frames)
    requires Accounted(j, v, t, flat, p) && v < USER_PAGES
    ensures Takes(j, v) == if Present(t[j.dst][PDX(v)]) then 1 else 2
  {
  }

  lemma NothingGained(j: Job, v: nat)
    requires forall u :: u in Copies(j, v) ==> Key(j.dst, u) !in j.flat
    ensures Gain(j, v) == {}
  {
    assert j.flat - Replaced(j, v) == j.flat;
  }

  ghost predicate AllEnough(j: Job, end: nat)
    requires Possible(j)
  {
    forall v :: j.start <= v < end ==> Enough(j, v)
  }

  lemma AllEnoughNext(j: Job, v: nat, next: nat)
    requires Possible(j) && j.start <= v && next == v + 1
    ensures AllEnough(j, next) <==> AllEnough(j, v) && Enough(j, v)
  {
  }

  /** One frame for each page to copy and one for each page table to make. */
  ghost function Cost(j: Job, v: nat): nat
    requires Possible(j) && v <= USER_PAGES
  {
    |Copies(j, v)| + |NewTables(j, v)|
  }

  ghost predicate Fresh(j: Job, v: nat) {
    forall u :: u in Copies(j, v) ==> Key(j.dst, u) !in j.flat
  }

  lemma FreshEnough(j: Job, v: nat, next: nat)
    requires Possible(j) && j.start <= v < USER_PAGES && Fresh(j, v) && next == v + 1
    ensures Cost(j, v) <= Cost(j, next)
    ensures Enough(j, v) <==> Cost(j, next) == Cost(j, v) || |j.p.free| >= Cost(j, next)
  {
    NothingGained(j, v);
    if Key(j.src, v) in j.flat {
      CopiesNext(j, v);
    } else {
      CopiesSkip(j, v, next);
    }
  }

  lemma FreshBefore(j: Job, v: nat, next: nat)
    requires Fresh(j, next) && v <= next
    ensures Fresh(j, v)
  {
    assert forall u :: u in Copies(j, v) ==> u in Copies(j, next);
  }

  /** Where the target has none of the pages that are copied, one frame for each page and
      one for each missing page table are enough, and no fewer are. */
  lemma {:induction false} FreshTarget(j: Job, end: nat)
    requires Possible(j) && j.start <= end <= USER_PAGES && Fresh(j, end)
    ensures AllEnough(j, end) <==> |j.p.free| >= Cost(j, end)
    decreases end
  {
    if end == j.start {
      NoCost(j, end);
    } else {
      var v := end - 1;
      FreshBefore(j, v, end);
      FreshTarget(j, v);
      FreshEnough(j, v, end);
      AllEnoughNext(j, v, end);
    }
  }

  lemma NoCost(j: Job, v: nat)
    requires Possible(j) && v <= j.start && v <= USER_PAGES
    ensures Cost(j, v) == 0
  {
    assert Copies(j, v) == {};
    assert NewTables(j, v) == {};
  }

  /** Some free frames were taken. */
  ghost predicate TookSome(free: set<Frame>, free': set<Frame>, taken: set<Frame>, takes: nat) {
    taken <= free && free' == free - taken && |taken| == takes
  }

  /** Frame g went into use, other frames were taken with it, and some became free. */
  ghost predicate Settles(flat: FlatMap, p: Frames, flat': FlatMap, p': Frames, g: Frame, taken: set<Frame>, takes: nat) {
    var freed := Orphans(flat, flat', p.data + {g});
    && p'.data == p.data + {g} - freed && taken <= p.free && |taken| == takes && p'.free == p.free - taken + freed
  }

  lemma CountSettled(flat: FlatMap, p: Frames, flat': FlatMap, p': Frames, g: Frame, taken: set<Frame>, takes: nat, k: Key)
    requires Settles(flat, p, flat', p', g, taken, takes) && p.free !! p.data && k in flat' && FrameOf(flat'[k]) == g
    ensures |p'.free| == |p.free| - takes + |Orphans(flat, flat', p.data + {g})|
  {
    var freed := Orphans(flat, flat', p.data + {g});
    OrphanIff(flat, flat', p.data + {g}, g);
    assert Maps(flat', g);
    CardExchange(p.free, taken, freed);
  }

  lemma CardExchange(free: set<Frame>, taken: set<Frame>, freed: set<Frame>)
    requires taken <= free && freed !! free
    ensures |free - taken + freed| == |free| - |taken| + |freed|
  {
    var rest := free - taken;
    assert free == rest + taken && rest !! taken && freed !! rest;
  }

  /** The frames get_pte and alloc_page take, and when there are too few. */
  lemma TakenTwice(free0: set<Frame>, free1: set<Frame>, had: bool, table: Option<Frame>, f: Option<Frame>) returns (taken: set<Frame>)
    requires if had then free1 == free0 else table.Some? && TookOne(free0, free1, table.value)
    requires f.None? <==> free1 == {}
    requires f.Some? ==> f.value in free1
    ensures f.Some? <==> |free0| >= if had then 1 else 2
    ensures f.Some? ==> f.value in taken && TookSome(free0, free1 - {f.value}, taken, if had then 1 else 2)
  {
    taken := (if had then {} else {table.value}) + if f.Some? then {f.value} else {};
    if !had {
      assert free0 == free1 + {table.value};
    }
    assert f.Some? ==> |free1| >= 1;
  }

  lemma AddedThenSame(t: Tables, t1: Tables, t2: Tables, roots: set<Frame>, k: Key)
    requires WellFormed(t, roots) && WellFormed(t1, roots) && WellFormed(t2, roots) && TableAdded(t, t1, roots, k) && SameDirs(t1, t2, roots)
    ensures TableAdded(t, t2, roots, k)
  {
    forall r, d | r in roots && 0 <= d < PDX(USER_PAGES) ensures AddedAt(t, t2, k, r, d) {
      assert AddedAt(t, t1, k, r, d);
    }
  }

  /** There are enough frames from page v up to next. */
  ghost predicate EnoughFrom(j: Job, v: nat, next: nat)
    requires Possible(j)
  {
    forall u :: v <= u < next ==> Enough(j, u)
  }

  lemma EnoughOne(j: Job, v: nat, next: nat)
    requires Possible(j) && Enough(j, v) && next == v + 1
    ensures EnoughFrom(j, v, next)
  {
  }

  lemma EnoughUpTo(j: Job, v: nat, next: nat)
    requires Possible(j) && AllEnough(j, v) && EnoughFrom(j, v, next)
    ensures AllEnough(j, next)
  {
  }

  lemma InSource(j: Job, v: nat, flat: FlatMap)
    requires GaveWay(j.flat, flat, Replaced(j, v), j.p.data - Gain(j, v)) && j.src != j.dst && Key(j.src, v) in flat
    ensures Key(j.src, v) in j.flat
  {
    assert SameAt(j.flat, flat, Key(j.src, v));
  }

  /** A round that passes over pages the source does not have. */
  lemma SkipRound(j: Job, bytes0: map<Frame, Bytes>, t: Tables, flat: FlatMap, p: Frames, bytes: map<Frame, Bytes>,
                  v: nat, next: nat, end: nat)
    requires Accounted(j, v, t, flat, p) && j.start <= v < end && v <= next <= USER_PAGES
    requires CopiedTo(j.flat, bytes0, flat, bytes, j.src, j.dst, j.start, v, end)
    requires forall u :: v <= u < next ==> Key(j.src, u) !in flat
    ensures CopiedTo(j.flat, bytes0, flat, bytes, j.src, j.dst, j.start, next, end)
    ensures Accounted(j, next, t, flat, p) && EnoughFrom(j, v, next)
  {
    CopySkip(j.flat, bytes0, flat, bytes, j.src, j.dst, j.start, v, next, end);
    forall u | v <= u < next ensures Key(j.src, u) !in j.flat {
      assert SameAt(j.flat, flat, Key(j.src, u));
    }
    CopiesSkip(j, v, next);
  }

  lemma SkipTableRound(j: Job, bytes0: map<Frame, Bytes>, t: Tables, flat: FlatMap, p: Frames, bytes: map<Frame, Bytes>,
                       v: nat, end: nat)
    requires Accounted(j, v, t, flat, p) && j.start <= v < end <= USER_PAGES && Represents(t, j.roots, flat)
    requires CopiedTo(j.flat, bytes0, flat, bytes, j.src, j.dst, j.start, v, end) && !Present(t[j.src][PDX(v)])
    ensures v < NextTable(v) <= USER_PAGES
    ensures CopiedTo(j.flat, bytes0, flat, bytes, j.src, j.dst, j.start, NextTable(v), end)
    ensures Accounted(j, NextTable(v), t, flat, p) && EnoughFrom(j, v, NextTable(v))
  {
    SkipTable(t, j.roots, flat, Key(j.src, v));
    SkipRound(j, bytes0, t, flat, p, bytes, v, NextTable(v), end);
  }

  lemma NotHere(flat: FlatMap, src: Frame, v: nat, next: nat)
    requires Key(src, v) !in flat && next == v + 1
    ensures forall u :: v <= u < next ==> Key(src, u) !in flat
  {
  }

  lemma SkipPageRound(j: Job, bytes0: map<Frame, Bytes>, t: Tables, flat: FlatMap, p: Frames, bytes: map<Frame, Bytes>,
                      v: nat, next: nat, end: nat)
    requires Accounted(j, v, t, flat, p) && j.start <= v < end <= USER_PAGES && Key(j.src, v) !in flat && next == v + 1
    requires CopiedTo(j.flat, bytes0, flat, bytes, j.src, j.dst, j.start, v, end)
    ensures CopiedTo(j.flat, bytes0, flat, bytes, j.src, j.dst, j.start, next, end)
    ensures Accounted(j, next, t, flat, p) && EnoughFrom(j, v, next)
  {
    NotHere(flat, j.src, v, next);
    SkipRound(j, bytes0, t, flat, p, bytes, v, next, end);
  }

  ghost predicate TookOne(before: set<Frame>, after: set<Frame>, f: Frame) {
    f in before && after == before - {f}
  }

  datatype Outcome = Ok | NoMem | Panic

  // ---------- physical memory ----------

  class Mmu {
    var roots: set<Frame>             // page directories
    var tables: Tables                // words of directories and page tables
    var data: set<Frame>              // allocated frames that are not tables
    var free: set<Frame>
    var ref: map<Frame, int>
    var bytes: map<Frame, Bytes>
    ghost var flat: FlatMap           // what the tables say
    ghost var owner: map<Frame, Slot> // where each page table hangs

    ghost function Book(): Frames
      reads this`data, this`free, this`ref
    {
      Frames(data, free, ref)
    }

    ghost predicate Refined()
      reads this`roots, this`tables, this`owner, this`flat, this`free, this`data
    {
      && WellFormed(tables, roots) && Owned(tables, roots, owner) && Represents(tables, roots, flat)
      && (forall f :: f in tables ==> f !in free && f !in data)
    }

    ghost predicate Valid()
      reads this`roots, this`tables, this`owner, this`flat, this`free, this`data, this`ref
    {
      Refined() && Counted(flat, Book(), -1)
    }

    /** Every frame that can be mapped has contents. */
    ghost predicate HasBytes()
      reads this`free, this`data, this`bytes
    {
      forall f :: f in free || f in data ==> f in bytes
    }

    /** Address spaces with nothing mapped, and frames to map. */
    constructor (dirs: set<Frame>, frames: set<Frame>, contents: map<Frame, Bytes>)
      requires dirs !! frames && frames <= contents.Keys
      ensures Valid() && HasBytes() && roots == dirs && flat == map[] && free == frames && data == {}
    {
      roots := dirs;
      tables := map f | f in dirs :: seq(NENTRY, _ => 0);
      data, free, ref, bytes := {}, frames, map f | f in frames :: 0, contents;
      flat, owner := map[], map[];
    }

    /** alloc_page: any free frame. */
    method AllocPage() returns (page: Option<Frame>)
      requires Valid()
      modifies this`data, this`free
      ensures Valid()
      ensures page.None? <==> old(free) == {}
      ensures page.None? ==> data == old(data) && free == old(free)
      ensures page.Some? ==> page.value in old(free) && data == old(data) + {page.value} && free == old(free) - {page.value}
      ensures page.Some? ==> ref[page.value] == 0
    {
      if free == {} {
        return None;
      }
      var f :| f in free;
      assert MappingsOf(flat, f) == {};
      ghost var p := Book();
      data, free := data + {f}, free - {f};
      forall g | g in data ensures CountedAt(flat, Book(), g, -1) {
        assert g != f ==> CountedAt(flat, p, g, -1);
      }
      page := Some(f);
    }

    /** get_pte without create: the page table of page k, None for NULL. */
    function FindTable(k: Key): (table: Option<Frame>)
      requires WellFormed(tables, roots) && k.root in roots && k.page < USER_PAGES
      reads this`roots, this`tables
      ensures table.Some? <==> HasTable(tables, roots, k)
    {
      var pde := tables[k.root][PDX(k.page)];
      if Present(pde) then Some(FrameOf(pde)) else None
    }

    /** get_pte with create: a missing page table is made from a free frame. */
    method GetPte(k: Key) returns (ok: bool)
      requires Valid() && k.root in roots && k.page < USER_PAGES
      modifies this`tables, this`free, this`ref, this`owner
      ensures Valid()
      ensures ok <==> old(HasTable(tables, roots, k)) || old(free) != {}
      ensures ok ==> HasTable(tables, roots, k)
      ensures !ok || old(HasTable(tables, roots, k)) ==> tables == old(tables) && free == old(free) && ref == old(ref)
      ensures ok && !old(HasTable(tables, roots, k)) ==> TookOne(old(free), free, FindTable(k).value)
      ensures ok ==> TableAdded(old(tables), tables, roots, k)
      ensures free <= old(free)
      ensures forall f :: f in data ==> ref[f] == old(ref)[f]
    {
      if FindTable(k).None? {
        if free == {} {
          return false;
        }
        var f :| f in free;
        MakeTable(k, f);
      }
      ok := true;
    }

    /** Frame f becomes the page table of page k. */
    method MakeTable(k: Key, f: Frame)
      requires Valid() && k.root in roots && k.page < USER_PAGES && !HasTable(tables, roots, k) && f in free
      modifies this`tables, this`free, this`ref, this`owner
      ensures Valid() && HasTable(tables, roots, k) && FindTable(k) == Some(f) && free == old(free) - {f}
      ensures TableAdded(old(tables), tables, roots, k) && forall g :: g in data ==> ref[g] == old(ref)[g]
    {
      ghost var before, p := tables, Book();
      free := free - {f};
      ref := ref[f := 1];
      tables := SetEntry(tables[f := seq(NENTRY, _ => 0)], k.root, PDX(k.page), PteWord(f, PTE_USER));
      AddTable(before, roots, owner, flat, k.root, PDX(k.page), f, PteWord(f, PTE_USER), tables);
      owner := owner[f := Slot(k.root, PDX(k.page))];
      forall g | g in data ensures CountedAt(flat, Book(), g, -1) {
        assert CountedAt(flat, p, g, -1);
      }
    }

    function Entry(k: Key): (w: Word)
      requires Refined() && HasTable(tables, roots, k)
      reads this
      ensures Present(w) <==> k in flat
      ensures Present(w) ==> w == flat[k]
    {
      assert ShownAt(tables, roots, flat, k);
      tables[FrameOf(tables[k.root][PDX(k.page)])][PTX(k.page)]
    }

    method FreePage(f: Frame)
      requires f in data
      modifies this`data, this`free, this`ref
      ensures data == old(data) - {f} && free == old(free) + {f} && ref == old(ref)[f := 0]
    {
      data, free, ref := data - {f}, free + {f}, ref[f := 0];
    }

    /** page_ref_dec, and free_page when the count reaches zero. */
    method DropRef(f: Frame)
      requires f in data && f in ref
      modifies this`data, this`free, this`ref
      ensures Book() == Dropped(old(Book()), f)
    {
      ref := ref[f := ref[f] - 1];
      if ref[f] == 0 {
        FreePage(f);
      }
    }

    /** Stores an entry into an existing table. */
    method SetPte(k: Key, w: Word)
      requires Refined() && HasTable(tables, roots, k)
      modifies this`tables, this`flat
      ensures Refined() && HasTable(tables, roots, k) && flat == AfterWrite(old(flat), k, w) && FindTable(k) == old(FindTable(k))
      ensures SameDirs(old(tables), tables, roots)
    {
      ghost var t := tables;
      tables := SetEntry(tables, FrameOf(tables[k.root][PDX(k.page)]), PTX(k.page), w);
      WriteEntry(t, roots, owner, flat, k, w, tables);
      flat := AfterWrite(flat, k, w);
    }

    /** Drops the mapping of page k, and its frame with it when nothing else
        maps the frame. */
    method PageRemovePte(k: Key)
      requires Refined() && HasTable(tables, roots, k)
      requires k in flat ==> FrameOf(flat[k]) in data && FrameOf(flat[k]) in ref
      modifies this`tables, this`flat, this`data, this`free, this`ref
      ensures Refined() && HasTable(tables, roots, k) && flat == old(flat) - {k} && FindTable(k) == old(FindTable(k))
      ensures SameDirs(old(tables), tables, roots)
      ensures Book() == Removed(old(Book()), old(flat), k)
    {
      var w := Entry(k);
      if Present(w) {
        DropRef(FrameOf(w));
        SetPte(k, 0);
      } else {
        OrphansOfNone(flat, k, data);
      }
    }

    /** page_insert once the page table exists. */
    method Install(page: Frame, k: Key, word: Word)
      requires Valid() && page in data && HasTable(tables, roots, k) && Present(word) && FrameOf(word) == page
      modifies this`tables, this`flat, this`data, this`free, this`ref
      ensures Refined() && HasTable(tables, roots, k) && flat == old(flat)[k := word] && FindTable(k) == old(FindTable(k))
      ensures SameDirs(old(tables), tables, roots)
      ensures Book() == Inserted(old(Book()), old(flat), k, page)
    {
      ghost var p := Book();
      ReplaceMapping(flat, k, word, data);
      ref := ref[page := ref[page] + 1];
      var w := Entry(k);
      if Present(w) {
        if FrameOf(w) == page {
          ref := ref[page := ref[page] - 1];
          assert ref == p.ref;
        } else {
          PageRemovePte(k);
        }
      }
      assert Book() == Inserted(p, old(flat), k, page);
      SetPte(k, word);
    }

    /** Maps frame `page` at page k.  Fails only for want of a frame for the page
        table, and then changes nothing.  What k mapped before is given back
        exactly when nothing else maps it; but for the frame of a new page table no
        other frame stops being free. */
    method PageInsert(page: Frame, k: Key, perm: nat) returns (ok: bool)
      requires Valid() && page in data && k.root in roots && k.page < USER_PAGES && perm < 8
      modifies this`tables, this`flat, this`owner, this`data, this`free, this`ref
      ensures Valid()
      ensures ok <==> old(HasTable(tables, roots, k)) || old(free) != {}
      ensures !ok ==> tables == old(tables) && flat == old(flat) && Book() == old(Book())
      ensures ok ==> HasTable(tables, roots, k) && flat == old(flat)[k := PteWord(page, perm)]
      ensures old(HasTable(tables, roots, k)) ==> SameDirs(old(tables), tables, roots)
      ensures ok ==> data == old(data) - Orphans(old(flat), flat, old(data))
      ensures ok && old(HasTable(tables, roots, k)) ==> free == old(free) + Orphans(old(flat), flat, old(data))
      ensures ok && !old(HasTable(tables, roots, k)) ==>
                && FindTable(k).value in old(free)
                && free == old(free) - {FindTable(k).value} + Orphans(old(flat), flat, old(data))
    {
      ok := GetPte(k);
      if !ok {
        return;
      }
      InsertedIsSettled(flat, Book(), k, PteWord(page, perm));
      Install(page, k, PteWord(page, perm));
    }

    method PageRemove(k: Key)
      requires Valid() && k.root in roots && k.page < USER_PAGES
      modifies this`tables, this`flat, this`data, this`free, this`ref
      ensures Valid() && flat == old(flat) - {k} && Settled(old(flat), old(Book()), flat, Book())
    {
      RemovedIsSettled(flat, Book(), k);
      if FindTable(k).Some? {
        PageRemovePte(k);
      } else {
        assert ShownAt(tables, roots, flat, k);
        OrphansOfNone(flat, k, data);
      }
    }

    method UnmapEntry(k: Key)
      requires Valid() && HasTable(tables, roots, k)
      modifies this`tables, this`flat, this`data, this`free, this`ref
      ensures Valid() && flat == old(flat) - {k} && Settled(old(flat), old(Book()), flat, Book())
    {
      RemovedIsSettled(flat, Book(), k);
      if Entry(k) != 0 {
        PageRemovePte(k);
      } else {
        OrphansOfNone(flat, k, data);
      }
    }

    /** One step of the sweep: page k is unmapped, or the whole missing table is
        skipped. */
    method UnmapStep(k: Key) returns (next: nat)
      requires Valid() && k.root in roots && k.page < USER_PAGES
      modifies this`tables, this`flat, this`data, this`free, this`ref
      ensures Valid() && next > k.page
      ensures flat == old(flat) - Range(k.root, k.page, next)
      ensures Settled(old(flat), old(Book()), flat, Book())
      ensures forall u :: k.page < u < next ==> Key(k.root, u) !in old(flat)
    {
      if FindTable(k).None? {
        next := NextTable(k.page);
        SkipTable(tables, roots, flat, k);
        RangeStart(flat, Book(), k.root, k.page);
      } else {
        next := k.page + 1;
        SingleRange(flat, k);
        UnmapEntry(k);
      }
    }

    /** Unmaps the pages [start, end): all of them, nothing else, and gives back
        exactly the frames whose last mapping went. */
    method UnmapRange(root: Frame, start: nat, end: nat)
      requires Valid() && root in roots && USERBASE_PAGE <= start < end <= USER_PAGES
      modifies this`tables, this`flat, this`data, this`free, this`ref
      ensures Valid() && flat == old(flat) - Range(root, start, end)
      ensures Settled(old(flat), old(Book()), flat, Book())
    {
      var v := start;
      RangeStart(flat, Book(), root, start);
      while v < end
        invariant start <= v && Valid()
        invariant flat == old(flat) - Range(root, start, v)
        invariant forall u :: end <= u < v ==> Key(root, u) !in old(flat)
        invariant Settled(old(flat), old(Book()), flat, Book())
      {
        ghost var flat1, p1 := flat, Book();
        var next := UnmapStep(Key(root, v));
        SettledSweep(old(flat), old(Book()), root, start, v, next, p1, Book());
        v := next;
      }
      RangeEnd(old(flat), root, start, end, v);
    }

    /** get_pte with create and alloc_page: a page table for page k, if it has none, and a
        frame for it. */
    method Reserve(k: Key) returns (out: Outcome, page: Frame, ghost taken: set<Frame>)
      requires Valid() && k.root in roots && k.page < USER_PAGES
      modifies this`tables, this`owner, this`data, this`free, this`ref
      ensures Valid() && free <= old(free) && (!out.Ok? ==> data == old(data))
      ensures var takes := if old(HasTable(tables, roots, k)) then 1 else 2;
              && (out.Ok? <==> |old(free)| >= takes) && (out.NoMem? <==> takes == 2 && old(free) == {})
              && (out.Ok? ==> TookSome(old(free), free, taken, takes))
      ensures out.Ok? ==> HasTable(tables, roots, k) && page in taken && data == old(data) + {page}
      ensures out.Ok? ==> TableAdded(old(tables), tables, roots, k)
    {
      page, taken := 0, {};
      ghost var had, free0 := HasTable(tables, roots, k), free;
      var ok := GetPte(k);
      if !ok {
        return NoMem, page, taken;
      }
      ghost var table, free1 := FindTable(k), free;
      var f := AllocPage();
      taken := TakenTwice(free0, free1, had, table, f);
      if f.None? {
        return Panic, page, taken;
      }
      out, page := Ok, f.value;
    }

    /** The body of copy_range for a present source page. It takes one frame, or two with a
        page table, and fails exactly if there are fewer. */
    method CopyPage(dst: Frame, src: Frame, v: nat) returns (out: Outcome, ghost g: Frame, ghost taken: set<Frame>)
      requires Valid() && HasBytes() && src in roots && dst in roots && src != dst && v < USER_PAGES
      requires HasTable(tables, roots, Key(src, v)) && Key(src, v) in flat
      modifies this`tables, this`flat, this`owner, this`data, this`free, this`ref, this`bytes
      ensures Valid() && HasBytes()
      ensures out.Ok? ==> CopyStep(old(flat), old(bytes), old(data), flat, bytes, src, dst, v, g)
      ensures !out.Ok? ==> flat == old(flat) && bytes == old(bytes)
      ensures var takes := if old(HasTable(tables, roots, Key(dst, v))) then 1 else 2;
              && (out.Ok? <==> |old(free)| >= takes) && (out.NoMem? <==> takes == 2 && old(free) == {})
              && (out.Ok? ==> g in taken && Settles(old(flat), old(Book()), flat, Book(), g, taken, takes))
      ensures out.Ok? ==> TableAdded(old(tables), tables, roots, Key(dst, v))
    {
      g := 0;
      var w := Entry(Key(src, v));
      var page;
      out, page, taken := Reserve(Key(dst, v));
      if !out.Ok? {
        return;
      }
      g := page;
      ghost var t1 := tables;
      bytes := bytes[page := bytes[FrameOf(w)]];
      var ok := PageInsert(page, Key(dst, v), UserBits(w));
      AddedThenSame(old(tables), t1, tables, roots, Key(dst, v));
    }

    /** One round of the loop of copy_range. */
    method CopyRound(dst: Frame, src: Frame, v: nat, ghost start: nat, ghost end: nat,
                     ghost bytes0: map<Frame, Bytes>, ghost j: Job) returns (out: Outcome, next: nat)
      requires Valid() && HasBytes() && src in roots && dst in roots && src != dst && start <= v < end <= USER_PAGES
      requires CopiedTo(j.flat, bytes0, flat, bytes, src, dst, start, v, end)
      requires j.roots == roots && j.src == src && j.dst == dst && j.start == start && Accounted(j, v, tables, flat, Book())
      modifies this`tables, this`flat, this`owner, this`data, this`free, this`ref, this`bytes
      ensures Valid() && HasBytes() && v < next <= USER_PAGES
      ensures CopiedTo(j.flat, bytes0, flat, bytes, src, dst, start, if out.Ok? then next else v, end)
      ensures out.Ok? ==> Accounted(j, next, tables, flat, Book()) && EnoughFrom(j, v, next)
      ensures !out.Ok? ==> !Enough(j, v) && (out.NoMem? <==> Left(j, v) == 0 && Takes(j, v) == 2)
    {
      var k := Key(src, v);
      out, next := Ok, v + 1;
      if FindTable(k).None? {
        next := NextTable(v);
        SkipTableRound(j, bytes0, tables, flat, Book(), bytes, v, end);
      } else if Present(Entry(k)) {
        out := CopyOne(dst, src, v, next, start, end, bytes0, j);
      } else {
        SkipPageRound(j, bytes0, tables, flat, Book(), bytes, v, next, end);
      }
    }

    /** That round for a page the source has. */
    method CopyOne(dst: Frame, src: Frame, v: nat, ghost next: nat, ghost start: nat, ghost end: nat,
                   ghost bytes0: map<Frame, Bytes>, ghost j: Job) returns (out: Outcome)
      requires next == v + 1 && Valid() && HasBytes() && src in roots && dst in roots && src != dst && start <= v < end <= USER_PAGES
      requires HasTable(tables, roots, Key(src, v)) && Key(src, v) in flat
      requires CopiedTo(j.flat, bytes0, flat, bytes, src, dst, start, v, end)
      requires j.roots == roots && j.src == src && j.dst == dst && j.start == start && Accounted(j, v, tables, flat, Book())
      modifies this`tables, this`flat, this`owner, this`data, this`free, this`ref, this`bytes
      ensures Valid() && HasBytes()
      ensures CopiedTo(j.flat, bytes0, flat, bytes, src, dst, start, if out.Ok? then next else v, end)
      ensures out.Ok? ==> Accounted(j, next, tables, flat, Book()) && EnoughFrom(j, v, next)
      ensures !out.Ok? ==> !Enough(j, v) && (out.NoMem? <==> Left(j, v) == 0 && Takes(j, v) == 2)
    {
      ghost var t1, flat1, bytes1, p1 := tables, flat, bytes, Book();
      TakesNow(j, v, t1, flat1, p1);
      InSource(j, v, flat1);
      ghost var g: Frame, taken: set<Frame>;
      out, g, taken := CopyPage(dst, src, v);
      if out.Ok? {
        CountSettled(flat1, p1, flat, Book(), g, taken, Takes(j, v), Key(dst, v));
        CopyAdvance(j.flat, bytes0, flat1, bytes1, p1.data, flat, bytes, src, dst, start, v, next, end, g);
        AccountStep(j, v, next, t1, flat1, p1, tables, Book(), flat[Key(dst, v)]);
        EnoughOne(j, v, next);
      }
    }

    /** Copies the present pages of src in [start, end) into dst. Whether that succeeds is
        decided by the frames that are free and become free on the way. */
    method CopyRange(dst: Frame, src: Frame, start: nat, end: nat) returns (out: Outcome, ghost at: nat)
      requires Valid() && HasBytes() && src in roots && dst in roots && src != dst
      requires USERBASE_PAGE <= start < end <= USER_PAGES
      modifies this`tables, this`flat, this`owner, this`data, this`free, this`ref, this`bytes
      ensures Valid() && HasBytes()
      ensures SameElsewhere(old(flat), flat, dst, start, end) && SameBytes(flat, old(bytes), bytes, dst, start, end)
      ensures out.Ok? ==> forall v :: start <= v < end ==> Copied(old(flat), old(bytes), flat, bytes, src, dst, v)
      ensures var j := old(Job(tables, roots, flat, Book(), src, dst, start));
              && Possible(j) && (out.Ok? <==> AllEnough(j, end))
              && (!out.Ok? ==> start <= at < end && AllEnough(j, at) && !Enough(j, at)
                               && (out.NoMem? <==> Left(j, at) == 0 && Takes(j, at) == 2))
    {
      ghost var j := Job(tables, roots, flat, Book(), src, dst, start);
      AccountStart(j);
      var v := start;
      while v < end
        invariant start <= v <= USER_PAGES && Valid() && HasBytes()
        invariant CopiedTo(j.flat, old(bytes), flat, bytes, src, dst, start, v, end)
        invariant Accounted(j, v, tables, flat, Book()) && AllEnough(j, v)
      {
        at := v;
        out, v := CopyRound(dst, src, v, start, end, old(bytes), j);
        if !out.Ok? {
          return;
        }
        EnoughUpTo(j, at, v);
      }
      out, at := Ok, end;
    }
  }
}
