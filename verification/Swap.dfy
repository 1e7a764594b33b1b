/** Demand paging with FIFO replacement (kern/mm/swap.c, swap_fifo.c and the
    fault path of vmm.c) for one address space.

    The page table appears as the flat map from pages to entry words; entry 0 is
    an absent key.  Block transfers to the swap device always succeed. */
module Swap {
  import opened Paging
  import opened Wrappers

  type Bytes = seq<int>

  /** What the area of a page allows: VM_READ or VM_EXEC, and VM_WRITE. */
  datatype Rights = Rights(read: bool, write: bool)

  /** (v + 1) << 8: a swap entry is never 0 and never present. */
  function SwapEntry(v: nat): (w: Word)
    ensures w != 0 && !Present(w) && SwapOffset(w) == v + 1
  {
    LowBit(32 * (v + 1), 0);
    (v + 1) * 256
  }

  function SwapOffset(w: Word): nat {
    w / 256
  }

  /** The pager's data structures. */
  datatype Vm = Vm(
    pte: map<nat, Word>,
    tables: map<nat, Frame>,        // frames of page tables, by directory index
    free: set<Frame>,
    fifo: seq<Frame>,               // pra_list, most recent arrival first
    vaddr: map<Frame, nat>,         // pra_vaddr
    bytes: map<Frame, Bytes>,
    disk: map<nat, Bytes>,
    arrived: map<Frame, nat>,       // when the page of a frame became resident
    clock: nat)

  // ---------- the invariant ----------

  /** The queue lists exactly the frames that hold a present page. */
  ghost predicate Resident(m: Vm) {
    && (forall i, j :: 0 <= i < j < |m.fifo| ==> m.fifo[i] != m.fifo[j])
    && (forall f :: f in m.fifo ==>
          f in m.vaddr && m.vaddr[f] in m.pte && Present(m.pte[m.vaddr[f]]) && FrameOf(m.pte[m.vaddr[f]]) == f)
    && (forall v :: v in m.pte && Present(m.pte[v]) ==>
          FrameOf(m.pte[v]) in m.fifo && FrameOf(m.pte[v]) in m.vaddr && m.vaddr[FrameOf(m.pte[v])] == v)
  }

  /** Every other page is in the slot that belongs to it alone. */
  ghost predicate SwappedOut(m: Vm) {
    && (forall v :: v in m.pte && !Present(m.pte[v]) ==> m.pte[v] == SwapEntry(v) && v + 1 in m.disk)
    && (forall s :: s in m.disk ==> |m.disk[s]| == PGSIZE)
  }

  ghost predicate FramesApart(m: Vm) {
    && (forall f :: f in m.fifo ==> f !in m.free && f !in m.tables.Values)
    && (forall f :: f in m.tables.Values ==> f !in m.free)
    && (forall f :: f in m.free || f in m.fifo ==> f in m.bytes && |m.bytes[f]| == PGSIZE)
  }

  ghost predicate Entitled(m: Vm, rights: map<nat, Rights>) {
    forall v :: v in m.pte ==>
      && v in rights
      && (Present(m.pte[v]) ==> UserBits(m.pte[v]) == if rights[v].write then PTE_USER else PTE_U + PTE_P)
  }

  ghost predicate Ordered(m: Vm) {
    && (forall f :: f in m.fifo ==> f in m.arrived && m.arrived[f] < m.clock)
    && (forall i, j :: 0 <= i < j < |m.fifo| ==> m.arrived[m.fifo[i]] > m.arrived[m.fifo[j]])
  }

  ghost predicate Good(m: Vm, rights: map<nat, Rights>) {
    Resident(m) && SwappedOut(m) && FramesApart(m) && Entitled(m, rights) && Ordered(m)
  }

  // ---------- the memory a program sees ----------

  ghost predicate Located(m: Vm) {
    forall v :: v in m.pte ==> if Present(m.pte[v]) then FrameOf(m.pte[v]) in m.bytes else SwapOffset(m.pte[v]) in m.disk
  }

  ghost function Contents(m: Vm, v: nat): Bytes
    requires Located(m) && v in m.pte
  {
    if Present(m.pte[v]) then m.bytes[FrameOf(m.pte[v])] else m.disk[SwapOffset(m.pte[v])]
  }

  ghost function Memory(m: Vm): map<nat, Bytes>
    requires Located(m)
  {
    map v | v in m.pte :: Contents(m, v)
  }

  lemma GoodIsLocated(m: Vm, rights: map<nat, Rights>)
    requires Good(m, rights)
    ensures Located(m)
    ensures forall v :: v in Memory(m) ==> |Memory(m)[v]| == PGSIZE
  {
    forall v | v in m.pte ensures if Present(m.pte[v]) then FrameOf(m.pte[v]) in m.bytes else SwapOffset(m.pte[v]) in m.disk {
    }
  }

  // ---------- eviction ----------

  ghost function Victim(m: Vm): Frame
    requires m.fifo != []
  {
    m.fifo[|m.fifo| - 1]
  }

  ghost function Evicted(m: Vm): Vm
    requires m.fifo != [] && Victim(m) in m.vaddr && Victim(m) in m.bytes
  {
    var f := Victim(m);
    var v := m.vaddr[f];
    m.(disk := m.disk[v + 1 := m.bytes[f]], fifo := m.fifo[..|m.fifo| - 1],
       pte := m.pte[v := SwapEntry(v)], free := m.free + {f})
  }

  /** There is a page to evict, and its slot is on the device. */
  ghost predicate CanEvict(m: Vm, maxSwap: nat) {
    m.fifo != [] && Victim(m) in m.vaddr && m.vaddr[Victim(m)] + 1 < maxSwap
  }

  lemma EvictKeepsResident(m: Vm)
    requires m.fifo != [] && Resident(m) && Victim(m) in m.bytes
    ensures Resident(Evicted(m))
  {
    var m', f := Evicted(m), Victim(m);
    assert f in m.fifo;
    forall g | g in m'.fifo ensures g in m.fifo && g != f && m.vaddr[g] != m.vaddr[f] {
    }
    forall v | v in m'.pte && Present(m'.pte[v]) ensures FrameOf(m'.pte[v]) in m'.fifo {
      var g := FrameOf(m.pte[v]);
      var i :| 0 <= i < |m.fifo| && m.fifo[i] == g;
      assert i < |m.fifo| - 1 ==> m'.fifo[i] == g;
    }
  }

  lemma EvictKeepsRest(m: Vm, rights: map<nat, Rights>)
    requires m.fifo != [] && Resident(m) && SwappedOut(m) && FramesApart(m) && Entitled(m, rights)
    ensures Victim(m) in m.vaddr && Victim(m) in m.bytes
    ensures SwappedOut(Evicted(m)) && FramesApart(Evicted(m)) && Entitled(Evicted(m), rights)
  {
    var f := Victim(m);
    assert f in m.fifo;
    var m' := Evicted(m);
    forall g | g in m'.fifo ensures g in m.fifo && g != f {
    }
  }

  lemma EvictKeepsOrder(m: Vm)
    requires m.fifo != [] && Ordered(m) && Victim(m) in m.vaddr && Victim(m) in m.bytes
    ensures Ordered(Evicted(m))
    ensures Victim(m) in m.arrived
    ensures forall f :: f in m.fifo ==> f in m.arrived && m.arrived[Victim(m)] <= m.arrived[f]
  {
    assert Victim(m) in m.fifo;
    assert forall g :: g in Evicted(m).fifo ==> g in m.fifo;
  }

  lemma EvictKeepsContents(m: Vm)
    requires m.fifo != [] && Resident(m) && SwappedOut(m) && Located(m)
    requires Victim(m) in m.vaddr && Victim(m) in m.bytes
    ensures Located(Evicted(m)) && Memory(Evicted(m)) == Memory(m)
  {
    var m' := Evicted(m);
    assert Victim(m) in m.fifo;
    forall v | v in m.pte
      ensures if Present(m'.pte[v]) then FrameOf(m'.pte[v]) in m'.bytes else SwapOffset(m'.pte[v]) in m'.disk
    {
    }
    forall v | v in m.pte ensures Contents(m', v) == Contents(m, v) {
    }
  }

  /** Eviction is invisible: every page keeps its contents.  The victim is the
      page that has been resident for longest. */
  lemma EvictIsInvisible(m: Vm, rights: map<nat, Rights>)
    requires m.fifo != [] && Good(m, rights)
    ensures Victim(m) in m.vaddr && Victim(m) in m.bytes && Victim(m) in m.arrived
    ensures Good(Evicted(m), rights) && Located(m) && Located(Evicted(m))
    ensures Memory(Evicted(m)) == Memory(m)
    ensures forall f :: f in m.fifo ==> f in m.arrived && m.arrived[Victim(m)] <= m.arrived[f]
  {
    EvictKeepsRest(m, rights);
    EvictKeepsResident(m);
    EvictKeepsOrder(m);
    GoodIsLocated(m, rights);
    EvictKeepsContents(m);
  }

  // ---------- bringing a page in ----------

  /** A frame that has been allocated and is not used for anything yet. */
  ghost predicate InHand(m: Vm, f: Frame) {
    && f !in m.free && f !in m.fifo && f !in m.tables.Values
    && f in m.bytes && |m.bytes[f]| == PGSIZE
  }

  lemma TakeKeepsGood(m: Vm, rights: map<nat, Rights>, f: Frame)
    requires Good(m, rights) && f in m.free
    ensures Good(m.(free := m.free - {f}), rights) && InHand(m.(free := m.free - {f}), f)
    ensures Located(m) && Located(m.(free := m.free - {f})) && Memory(m.(free := m.free - {f})) == Memory(m)
  {
    var m' := m.(free := m.free - {f});
    assert FramesApart(m') && InHand(m', f);
    assert Resident(m') && SwappedOut(m') && Entitled(m', rights) && Ordered(m');
    GoodIsLocated(m, rights);
  }

  lemma TableKeepsApart(m: Vm, d: nat, f: Frame)
    requires FramesApart(m) && InHand(m, f)
    ensures FramesApart(m.(tables := m.tables[d := f]))
  {
    var m' := m.(tables := m.tables[d := f]);
    forall g | g in m'.tables.Values ensures g == f || g in m.tables.Values {
      var e :| e in m'.tables && m'.tables[e] == g;
      assert e != d ==> e in m.tables && m.tables[e] == g;
    }
  }

  lemma TableKeepsGood(m: Vm, rights: map<nat, Rights>, d: nat, f: Frame)
    requires Good(m, rights) && InHand(m, f)
    ensures Good(m.(tables := m.tables[d := f]), rights)
    ensures Located(m) && Located(m.(tables := m.tables[d := f])) && Memory(m.(tables := m.tables[d := f])) == Memory(m)
  {
    GoodIsLocated(m, rights);
    TableKeepsApart(m, d, f);
  }

  function Permissions(r: Rights): nat {
    if r.write then PTE_U + PTE_W else PTE_U
  }

  /** Page v becomes resident in frame f with contents b. */
  ghost function BroughtIn(m: Vm, v: nat, f: Frame, b: Bytes, perm: nat): Vm
    requires perm < 8
  {
    m.(bytes := m.bytes[f := b], pte := m.pte[v := PteWord(f, perm)], fifo := [f] + m.fifo,
       vaddr := m.vaddr[f := v], arrived := m.arrived[f := m.clock], clock := m.clock + 1)
  }

  ghost predicate CanBringIn(m: Vm, rights: map<nat, Rights>, v: nat, f: Frame, b: Bytes) {
    Good(m, rights) && InHand(m, f) && v in rights && (v in m.pte ==> !Present(m.pte[v])) && |b| == PGSIZE
  }

  lemma BringInKeepsResident(m: Vm, v: nat, f: Frame, b: Bytes, perm: nat)
    requires Resident(m) && f !in m.fifo && (v in m.pte ==> !Present(m.pte[v])) && perm < 8
    ensures Resident(BroughtIn(m, v, f, b, perm))
  {
    var m' := BroughtIn(m, v, f, b, perm);
    forall g | g in m'.fifo ensures g == f || (g in m.fifo && m.vaddr[g] != v) {
    }
    forall u | u in m'.pte && Present(m'.pte[u]) ensures FrameOf(m'.pte[u]) in m'.fifo {
      assert u != v ==> FrameOf(m.pte[u]) in m.fifo;
      assert m'.fifo[0] == f;
    }
  }

  lemma BringInKeepsRest(m: Vm, rights: map<nat, Rights>, v: nat, f: Frame, b: Bytes)
    requires CanBringIn(m, rights, v, f, b)
    ensures var m' := BroughtIn(m, v, f, b, Permissions(rights[v]));
            SwappedOut(m') && FramesApart(m') && Entitled(m', rights)
  {
    var m' := BroughtIn(m, v, f, b, Permissions(rights[v]));
    forall g | g in m'.fifo ensures g == f || g in m.fifo {
    }
  }

  lemma BringInKeepsOrder(m: Vm, v: nat, f: Frame, b: Bytes, perm: nat)
    requires Ordered(m) && perm < 8 && f !in m.fifo
    ensures Ordered(BroughtIn(m, v, f, b, perm))
  {
    var m' := BroughtIn(m, v, f, b, perm);
    forall g | g in m'.fifo ensures g == f || g in m.fifo {
    }
  }

  lemma BringInContents(m: Vm, rights: map<nat, Rights>, v: nat, f: Frame, b: Bytes)
    requires CanBringIn(m, rights, v, f, b) && Located(m)
    ensures var m' := BroughtIn(m, v, f, b, Permissions(rights[v]));
            Located(m') && Memory(m') == Memory(m)[v := b]
  {
    var m' := BroughtIn(m, v, f, b, Permissions(rights[v]));
    forall u | u in m'.pte
      ensures if Present(m'.pte[u]) then FrameOf(m'.pte[u]) in m'.bytes else SwapOffset(m'.pte[u]) in m'.disk
    {
    }
    forall u | u in m.pte && u != v ensures Contents(m', u) == Contents(m, u) {
    }
  }

  /** A fault changes the page that faulted and no other; a page that was on the
      device comes back as it left. */
  lemma BringInIsLocal(m: Vm, rights: map<nat, Rights>, v: nat, f: Frame, b: Bytes)
    requires CanBringIn(m, rights, v, f, b)
    ensures var m' := BroughtIn(m, v, f, b, Permissions(rights[v]));
            && Good(m', rights) && Located(m) && Located(m')
            && Memory(m') == Memory(m)[v := b]
  {
    GoodIsLocated(m, rights);
    BringInKeepsResident(m, v, f, b, Permissions(rights[v]));
    BringInKeepsRest(m, rights, v, f, b);
    BringInKeepsOrder(m, v, f, b, Permissions(rights[v]));
    BringInContents(m, rights, v, f, b);
  }

  // ---------- access to a resident page ----------

  ghost function Stored(m: Vm, v: nat, b: Bytes): Vm
    requires v in m.pte
  {
    m.(bytes := m.bytes[FrameOf(m.pte[v]) := b])
  }

  lemma StoreContents(m: Vm, v: nat, b: Bytes)
    requires Resident(m) && Located(m) && v in m.pte && Present(m.pte[v])
    ensures Located(Stored(m, v, b)) && Memory(Stored(m, v, b)) == Memory(m)[v := b]
  {
    var m' := Stored(m, v, b);
    forall u | u in m.pte && u != v ensures Contents(m', u) == Contents(m, u) {
    }
  }

  lemma StoreIsLocal(m: Vm, rights: map<nat, Rights>, v: nat, b: Bytes)
    requires Good(m, rights) && v in m.pte && Present(m.pte[v]) && |b| == PGSIZE
    ensures Good(Stored(m, v, b), rights) && Located(m) && Located(Stored(m, v, b))
    ensures Memory(Stored(m, v, b)) == Memory(m)[v := b]
  {
    GoodIsLocated(m, rights);
    StoreContents(m, v, b);
  }

  // ---------- runs against a flat memory ----------

  datatype Access = Load(v: nat) | Store(v: nat, off: nat, x: int)
  datatype Reply = Value(bytes: Bytes) | Done | Refused | Panic

  predicate CanRead(rights: map<nat, Rights>, v: nat) {
    v in rights && rights[v].read
  }

  predicate CanWrite(rights: map<nat, Rights>, v: nat) {
    v in rights && rights[v].write
  }

  /** A memory without frames, queue or device, after some accesses. */
  ghost function FlatAfter(init: map<nat, Bytes>, ops: seq<Access>, rs: seq<Reply>): map<nat, Bytes>
    requires |ops| == |rs|
  {
    if ops == [] then init else
      var k := |ops| - 1;
      var m := FlatAfter(init, ops[..k], rs[..k]);
      if ops[k].Store? && rs[k].Done? && ops[k].v in m && ops[k].off < |m[ops[k].v]|
      then m[ops[k].v := m[ops[k].v][ops[k].off := ops[k].x]] else m
  }

  /** One reply is what a flat memory m would give: loads return the bytes that
      are there, stores happen, and only accesses without the right are refused. */
  ghost predicate Explained(m: map<nat, Bytes>, rights: map<nat, Rights>, a: Access, r: Reply) {
    match a
    case Load(v) => (r.Value? && v in m && r.bytes == m[v]) || (r.Refused? && !CanRead(rights, v))
    case Store(v, off, _) => (r.Done? && v in m && off < |m[v]| && CanWrite(rights, v)) || (r.Refused? && !CanWrite(rights, v))
  }

  ghost predicate AllExplained(init: map<nat, Bytes>, rights: map<nat, Rights>, ops: seq<Access>, rs: seq<Reply>)
    requires |ops| == |rs|
  {
    ops == [] ||
      var k := |ops| - 1;
      && AllExplained(init, rights, ops[..k], rs[..k])
      && Explained(FlatAfter(init, ops[..k], rs[..k]), rights, ops[k], rs[k])
  }

  lemma {:induction false} FlatKeys(init: map<nat, Bytes>, ops: seq<Access>, rs: seq<Reply>)
    requires |ops| == |rs|
    ensures FlatAfter(init, ops, rs).Keys == init.Keys
  {
    if ops != [] {
      var k := |ops| - 1;
      FlatKeys(init, ops[..k], rs[..k]);
    }
  }

  /** A page nobody has touched may be given any initial contents afterwards. */
  lemma {:induction false} ExtendInit(init: map<nat, Bytes>, rights: map<nat, Rights>, ops: seq<Access>, rs: seq<Reply>, v: nat, b: Bytes)
    requires |ops| == |rs| && v !in init && AllExplained(init, rights, ops, rs)
    ensures FlatAfter(init[v := b], ops, rs) == FlatAfter(init, ops, rs)[v := b]
    ensures AllExplained(init[v := b], rights, ops, rs)
  {
    if ops != [] {
      var k := |ops| - 1;
      ExtendInit(init, rights, ops[..k], rs[..k], v, b);
      FlatKeys(init, ops[..k], rs[..k]);
    }
  }

  lemma ExtendRun(init: map<nat, Bytes>, rights: map<nat, Rights>, ops: seq<Access>, rs: seq<Reply>, a: Access, r: Reply)
    requires |ops| == |rs| && AllExplained(init, rights, ops, rs)
    requires Explained(FlatAfter(init, ops, rs), rights, a, r)
    ensures AllExplained(init, rights, ops + [a], rs + [r])
  {
    assert (ops + [a])[..|ops|] == ops && (rs + [r])[..|ops|] == rs;
  }

  /** What one access does to the memory, b being the bytes of its page. */
  ghost predicate Served(m: map<nat, Bytes>, m': map<nat, Bytes>, rights: map<nat, Rights>, a: Access, r: Reply, b: Bytes) {
    && (a.v in m && !r.Refused? ==> b == m[a.v])
    && match r
       case Value(bytes) => a.Load? && bytes == b && m' == m[a.v := b]
       case Done =>
         a.Store? && CanWrite(rights, a.v) && a.off < |b| && m' == m[a.v := b[a.off := a.x]]
       case Refused => !(if a.Load? then CanRead(rights, a.v) else CanWrite(rights, a.v)) && m' == m
       case Panic => false
  }

  ghost function Extended(init: map<nat, Bytes>, a: Access, r: Reply, b: Bytes): map<nat, Bytes> {
    if a.v in init || r.Refused? then init else init[a.v := b]
  }

  /** Giving the page of an access its initial contents beforehand. */
  lemma ExtendedKeeps(init: map<nat, Bytes>, rights: map<nat, Rights>, ops: seq<Access>, rs: seq<Reply>,
                      a: Access, r: Reply, b: Bytes)
    requires |ops| == |rs| && AllExplained(init, rights, ops, rs)
    ensures var init', m := Extended(init, a, r, b), FlatAfter(init, ops, rs);
            && AllExplained(init', rights, ops, rs)
            && m.Keys == init.Keys
            && FlatAfter(init', ops, rs) == if a.v in m || r.Refused? then m else m[a.v := b]
  {
    FlatKeys(init, ops, rs);
    if a.v !in init {
      ExtendInit(init, rights, ops, rs, a.v, b);
    }
  }

  lemma FlatAppend(init: map<nat, Bytes>, ops: seq<Access>, rs: seq<Reply>, a: Access, r: Reply)
    requires |ops| == |rs|
    ensures var m := FlatAfter(init, ops, rs);
            FlatAfter(init, ops + [a], rs + [r]) ==
            if a.Store? && r.Done? && a.v in m && a.off < |m[a.v]| then m[a.v := m[a.v][a.off := a.x]] else m
  {
    assert (ops + [a])[..|ops|] == ops && (rs + [r])[..|ops|] == rs;
  }

  lemma ServedIsExplained(init: map<nat, Bytes>, rights: map<nat, Rights>, ops: seq<Access>, rs: seq<Reply>,
                          a: Access, r: Reply, b: Bytes, m': map<nat, Bytes>)
    requires |ops| == |rs| && AllExplained(init, rights, ops, rs)
    requires Served(FlatAfter(init, ops, rs), m', rights, a, r, b)
    ensures AllExplained(Extended(init, a, r, b), rights, ops + [a], rs + [r])
    ensures FlatAfter(Extended(init, a, r, b), ops + [a], rs + [r]) == m'
  {
    var m, init' := FlatAfter(init, ops, rs), Extended(init, a, r, b);
    ExtendedKeeps(init, rights, ops, rs, a, r, b);
    var m1 := FlatAfter(init', ops, rs);
    assert m1 == if r.Refused? then m else m[a.v := b];
    ExtendRun(init', rights, ops, rs, a, r);
    FlatAppend(init', ops, rs, a, r);
  }

  /** A run from memory m0 to m is explained by the initial contents init, which
      agree with m0 on the pages m0 has. */
  ghost predicate Tracks(init: map<nat, Bytes>, m0: map<nat, Bytes>, rights: map<nat, Rights>,
                         ops: seq<Access>, rs: seq<Reply>, m: map<nat, Bytes>)
  {
    && |ops| == |rs| && AllExplained(init, rights, ops, rs) && m == FlatAfter(init, ops, rs)
    && forall v :: v in m0 ==> v in init && init[v] == m0[v]
  }

  lemma TracksOn(init: map<nat, Bytes>, m0: map<nat, Bytes>, rights: map<nat, Rights>, ops: seq<Access>, rs: seq<Reply>,
                 m: map<nat, Bytes>, a: Access, r: Reply, b: Bytes, m': map<nat, Bytes>)
    requires Tracks(init, m0, rights, ops, rs, m) && Served(m, m', rights, a, r, b)
    ensures Tracks(Extended(init, a, r, b), m0, rights, ops + [a], rs + [r], m')
  {
    ServedIsExplained(init, rights, ops, rs, a, r, b, m');
  }

  lemma TracksNext(init: map<nat, Bytes>, m0: map<nat, Bytes>, rights: map<nat, Rights>, ops: seq<Access>, rs: seq<Reply>,
                   m: map<nat, Bytes>, r: Reply, b: Bytes, m': map<nat, Bytes>)
    requires |rs| < |ops| && Tracks(init, m0, rights, ops[..|rs|], rs, m) && Served(m, m', rights, ops[|rs|], r, b)
    ensures Tracks(Extended(init, ops[|rs|], r, b), m0, rights, ops[..|rs| + 1], rs + [r], m')
  {
    TracksOn(init, m0, rights, ops[..|rs|], rs, m, ops[|rs|], r, b, m');
    assert ops[..|rs| + 1] == ops[..|rs|] + [ops[|rs|]];
  }

  // ---------- the pager ----------

  ghost predicate SameMemory(m: Vm, m': Vm) {
    Located(m) && Located(m') && Memory(m') == Memory(m)
  }

  /** Page v holds b afterwards and every other page is as it was. */
  ghost predicate OnlyPage(m: Vm, m': Vm, v: nat, b: Bytes) {
    Located(m) && Located(m') && Memory(m') == Memory(m)[v := b]
  }

  lemma OnlyPageTwice(m: Vm, m1: Vm, m2: Vm, v: nat, b: Bytes, b': Bytes)
    requires OnlyPage(m, m1, v, b) && OnlyPage(m1, m2, v, b')
    ensures OnlyPage(m, m2, v, b')
  {
  }

  /** Eviction touches entries of resident pages only. */
  ghost predicate OnlyEvictions(pte: map<nat, Word>, pte': map<nat, Word>) {
    && pte'.Keys == pte.Keys
    && forall v :: v in pte && !Present(pte[v]) ==> pte'[v] == pte[v]
  }

  lemma EvictTouchesResident(m: Vm)
    requires m.fifo != [] && Resident(m) && Victim(m) in m.vaddr && Victim(m) in m.bytes
    ensures OnlyEvictions(m.pte, Evicted(m).pte)
  {
    assert Victim(m) in m.fifo;
  }

  /** Of a queue q, the newest pages are still resident and the oldest ones,
      and they only, have become free. */
  ghost predicate OldestGone(q: seq<Frame>, free: set<Frame>, q': seq<Frame>, free': set<Frame>) {
    q' <= q && free' == free + (set f | f in q[|q'|..])
  }

  lemma OldestGoneStep(q: seq<Frame>, free: set<Frame>, q': seq<Frame>, free': set<Frame>)
    requires OldestGone(q, free, q', free') && q' != []
    ensures OldestGone(q, free, q'[..|q'| - 1], free' + {q'[|q'| - 1]})
  {
    var k := |q'| - 1;
    assert q[k..] == [q'[k]] + q[k + 1..];
  }

  /** Bringing a page back from its slot writes what is there already. */
  lemma SwapInRestores(m: Vm, v: nat)
    requires Located(m) && v in m.pte && !Present(m.pte[v])
    ensures Memory(m)[v := m.disk[SwapOffset(m.pte[v])]] == Memory(m)
  {
    assert Memory(m)[v] == Contents(m, v);
  }

  lemma ReadsWhatIsThere(m: Vm, v: nat)
    requires Located(m) && v in m.pte && Present(m.pte[v])
    ensures v in Memory(m) && Memory(m)[v] == m.bytes[FrameOf(m.pte[v])]
    ensures Memory(m)[v := m.bytes[FrameOf(m.pte[v])]] == Memory(m)
  {
    assert Memory(m)[v] == Contents(m, v);
  }

  ghost predicate IsResident(m: Vm, v: nat) {
    v in m.pte && Present(m.pte[v])
  }

  /** Reads are refused by the fault handler but not by the processor. */
  ghost predicate ReadRefused(m: Vm, rights: map<nat, Rights>, v: nat) {
    !CanRead(rights, v) && !IsResident(m, v)
  }

  /** Where transparency stops: a page that may be written but not read can be
      read while it is resident and not after it has been evicted, although the
      memory is the same. */
  lemma WriteOnlyPagesShowEviction(m: Vm, rights: map<nat, Rights>, v: nat)
    requires m.fifo != [] && Good(m, rights) && Victim(m) in m.vaddr && m.vaddr[Victim(m)] == v && Victim(m) in m.bytes
    ensures SameMemory(m, Evicted(m))
    ensures ReadRefused(m, rights, v) != ReadRefused(Evicted(m), rights, v) <==> !CanRead(rights, v)
  {
    EvictIsInvisible(m, rights);
    assert Victim(m) in m.fifo;
  }

  /** One resident page, which may be written and not read. */
  ghost function WriteOnlyPage(v: nat): Vm {
    Vm(map[v := PteWord(1, PTE_U + PTE_W)], map[], {}, [1], map[1 := v], map[1 := seq(PGSIZE, _ => 0)], map[], map[1 := 0], 1)
  }

  /** Such a page is readable until it is evicted. */
  lemma EvictionShows(v: nat)
    ensures var m, rights := WriteOnlyPage(v), map[v := Rights(false, true)];
            && Good(m, rights) && m.fifo != [] && Victim(m) in m.vaddr && Victim(m) in m.bytes
            && !ReadRefused(m, rights, v) && ReadRefused(Evicted(m), rights, v)
  {
    var m, rights := WriteOnlyPage(v), map[v := Rights(false, true)];
    assert Good(m, rights);
    WriteOnlyPagesShowEviction(m, rights, v);
  }

  /** The W bit of an entry. */
  predicate Writable(w: Word) {
    UserBits(w) / PTE_W % 2 == 1
  }

  datatype FaultResult = Mapped | Invalid | OutOfMemory

  class Pager {
    const rights: map<nat, Rights>      // pages that lie in some area
    const maxSwap: nat                  // pages on the swap device
    var pte: map<nat, Word>
    var tables: map<nat, Frame>
    var free: set<Frame>
    var fifo: seq<Frame>
    var vaddr: map<Frame, nat>
    var bytes: map<Frame, Bytes>
    var disk: map<nat, Bytes>
    ghost var arrived: map<Frame, nat>
    ghost var clock: nat

    ghost function Abs(): Vm
      reads this
    {
      Vm(pte, tables, free, fifo, vaddr, bytes, disk, arrived, clock)
    }

    ghost predicate Valid()
      reads this
    {
      Good(Abs(), rights)
    }

    constructor (rights: map<nat, Rights>, maxSwap: nat, frames: map<Frame, Bytes>)
      requires forall f :: f in frames ==> |frames[f]| == PGSIZE
      ensures Valid() && this.rights == rights && this.maxSwap == maxSwap
      ensures Abs() == Vm(map[], map[], frames.Keys, [], map[], frames, map[], map[], 0)
    {
      this.rights, this.maxSwap := rights, maxSwap;
      pte, tables, free, fifo, vaddr, bytes, disk := map[], map[], frames.Keys, [], map[], frames, map[];
      arrived, clock := map[], 0;
    }

    /** No frame is free and none can be freed. */
    ghost predicate UsedUp()
      reads this
    {
      free == {} && !CanEvict(Abs(), maxSwap)
    }

    /** Writes the last page of the queue to the device and frees its frame. */
    method Evict()
      requires fifo != [] && Victim(Abs()) in vaddr && Victim(Abs()) in bytes
      modifies this`pte, this`free, this`fifo, this`disk
      ensures Abs() == Evicted(old(Abs()))
    {
      var page := fifo[|fifo| - 1];
      fifo := fifo[..|fifo| - 1];
      var v := vaddr[page];
      disk := disk[v + 1 := bytes[page]];
      pte := pte[v := SwapEntry(v)];
      free := free + {page};
    }

    /** One round of swap_out.  Panics when nothing is resident or the slot of the
        victim lies beyond the device. */
    method EvictOne() returns (ok: bool)
      requires Valid()
      modifies this`pte, this`free, this`fifo, this`disk
      ensures Valid() && SameMemory(old(Abs()), Abs())
      ensures ok <==> old(CanEvict(Abs(), maxSwap))
      ensures ok ==> old(Victim(Abs()) in vaddr && Victim(Abs()) in bytes) && Abs() == Evicted(old(Abs()))
      ensures !ok ==> Abs() == old(Abs())
    {
      GoodIsLocated(Abs(), rights);
      if fifo == [] {
        return false;
      }
      EvictIsInvisible(Abs(), rights);
      if vaddr[fifo[|fifo| - 1]] + 1 >= maxSwap {
        return false;
      }
      Evict();
      ok := true;
    }

    /** Evicts up to n pages, oldest first, and returns how many. */
    method SwapOut(n: nat) returns (done: nat)
      requires Valid()
      modifies this`pte, this`free, this`fifo, this`disk
      ensures Valid() && SameMemory(old(Abs()), Abs())
      ensures done <= n && |fifo| == |old(fifo)| - done && OldestGone(old(fifo), old(free), fifo, free)
      ensures done < n ==> !CanEvict(Abs(), maxSwap)
    {
      GoodIsLocated(Abs(), rights);
      done := 0;
      while done < n
        invariant Valid() && SameMemory(old(Abs()), Abs())
        invariant done <= n && |fifo| == |old(fifo)| - done && OldestGone(old(fifo), old(free), fifo, free)
      {
        ghost var q, fr := fifo, free;
        var ok := EvictOne();
        if !ok {
          return;
        }
        OldestGoneStep(old(fifo), old(free), q, fr);
        done := done + 1;
      }
    }

    /** The loop of alloc_page. */
    method MakeRoom() returns (ok: bool)
      requires Valid()
      modifies this`pte, this`free, this`fifo, this`disk
      ensures Valid() && SameMemory(old(Abs()), Abs()) && OnlyEvictions(old(pte), pte)
      ensures ok <==> free != {}
      ensures ok <==> old(free) != {} || old(CanEvict(Abs(), maxSwap))
      ensures !ok ==> UsedUp()
    {
      GoodIsLocated(Abs(), rights);
      while free == {}
        invariant Valid() && SameMemory(old(Abs()), Abs()) && OnlyEvictions(old(pte), pte)
        invariant free == {} ==> Abs() == old(Abs())
        invariant free != {} ==> old(free) != {} || old(CanEvict(Abs(), maxSwap))
        decreases |fifo|
      {
        ghost var m := Abs();
        ok := EvictOne();
        if !ok {
          return;
        }
        EvictTouchesResident(m);
      }
      ok := true;
    }

    /** alloc_page: evicts until a frame is free, which takes one eviction at most. There
        is no frame exactly if none is free and the oldest page cannot be evicted. */
    method AllocPage() returns (page: Option<Frame>)
      requires Valid()
      modifies this`pte, this`free, this`fifo, this`disk
      ensures Valid() && SameMemory(old(Abs()), Abs()) && OnlyEvictions(old(pte), pte)
      ensures page.Some? ==> InHand(Abs(), page.value)
      ensures page.None? <==> old(free) == {} && !old(CanEvict(Abs(), maxSwap))
      ensures page.None? ==> UsedUp()
    {
      var ok := MakeRoom();
      if !ok {
        return None;
      }
      var f := TakeFrame();
      page := Some(f);
    }

    method TakeFrame() returns (f: Frame)
      requires Valid() && free != {}
      modifies this`free
      ensures Valid() && SameMemory(old(Abs()), Abs()) && InHand(Abs(), f)
    {
      f :| f in free;
      TakeKeepsGood(Abs(), rights, f);
      free := free - {f};
    }

    /** The directory has a table for page v afterwards, unless memory is out. */
    method GetPte(v: nat) returns (ok: bool)
      requires Valid()
      modifies this`pte, this`free, this`fifo, this`disk, this`tables
      ensures Valid() && SameMemory(old(Abs()), Abs()) && OnlyEvictions(old(pte), pte)
      ensures !ok ==> UsedUp()
    {
      GoodIsLocated(Abs(), rights);
      ok := true;
      if PDX(v) !in tables {
        var page := AllocPage();
        if page.None? {
          return false;
        }
        TableKeepsGood(Abs(), rights, PDX(v), page.value);
        tables := tables[PDX(v) := page.value];
      }
    }

    /** page_insert and swap_map_swappable for a frame that holds b. */
    method BringIn(v: nat, f: Frame, b: Bytes, perm: nat)
      requires perm < 8
      modifies this`pte, this`fifo, this`vaddr, this`bytes, this`arrived, this`clock
      ensures Abs() == BroughtIn(old(Abs()), v, f, b, perm)
    {
      bytes := bytes[f := b];
      pte := pte[v := PteWord(f, perm)];
      fifo, vaddr := [f] + fifo, vaddr[f := v];
      arrived, clock := arrived[f := clock], clock + 1;
    }

    /** do_pgfault for a page the hardware could not use: not present, or present
        but not writable for a write. */
    method DoPgfault(v: nat, write: bool) returns (r: FaultResult, ghost b: Bytes)
      requires Valid()
      requires v in pte && Present(pte[v]) ==> write && !CanWrite(rights, v)
      modifies this`pte, this`tables, this`free, this`fifo, this`vaddr, this`bytes, this`disk, this`arrived, this`clock
      ensures Valid()
      ensures r.Invalid? <==> !(if write then CanWrite(rights, v) else CanRead(rights, v))
      ensures !r.Mapped? ==> SameMemory(old(Abs()), Abs())
      ensures r.OutOfMemory? ==> UsedUp()
      ensures r.Mapped? ==> v in pte && Present(pte[v]) && OnlyPage(old(Abs()), Abs(), v, b)
      ensures r.Mapped? && v in old(pte) ==> SameMemory(old(Abs()), Abs())
    {
      GoodIsLocated(Abs(), rights);
      b := [];
      if v !in rights || !(if write then rights[v].write else rights[v].read) {
        return Invalid, b;
      }
      var perm := Permissions(rights[v]);
      var ok := GetPte(v);
      if !ok {
        return OutOfMemory, b;
      }
      var page := AllocPage();
      if page.None? {
        return OutOfMemory, b;
      }
      var f := page.value;
      if v !in pte {
        b := bytes[f];
        BringInIsLocal(Abs(), rights, v, f, bytes[f]);
        BringIn(v, f, bytes[f], perm);
      } else {
        b := disk[SwapOffset(pte[v])];
        SwapInRestores(Abs(), v);
        BringInIsLocal(Abs(), rights, v, f, disk[SwapOffset(pte[v])]);
        BringIn(v, f, disk[SwapOffset(pte[v])], perm);
      }
      r := Mapped;
    }

    /** Makes page v usable for the access, through a fault if need be.  b is what
        the page holds; a page that existed before keeps its contents. */
    method Touch(v: nat, write: bool) returns (r: FaultResult, ghost b: Bytes)
      requires Valid()
      modifies this`pte, this`tables, this`free, this`fifo, this`vaddr, this`bytes, this`disk, this`arrived, this`clock
      ensures Valid()
      ensures r.Invalid? <==> if write then !CanWrite(rights, v) else old(ReadRefused(Abs(), rights, v))
      ensures r.Mapped? ==> v in pte && Present(pte[v]) && OnlyPage(old(Abs()), Abs(), v, b)
      ensures !r.Mapped? || v in old(pte) ==> SameMemory(old(Abs()), Abs())
      ensures r.OutOfMemory? ==> UsedUp()
    {
      GoodIsLocated(Abs(), rights);
      if v in pte && Present(pte[v]) && (write ==> Writable(pte[v])) {
        ReadsWhatIsThere(Abs(), v);
        b := bytes[FrameOf(pte[v])];
        r := Mapped;
      } else {
        r, b := DoPgfault(v, write);
      }
    }

    /** A load. */
    method Read(v: nat) returns (r: Reply, ghost b: Bytes)
      requires Valid()
      modifies this`pte, this`tables, this`free, this`fifo, this`vaddr, this`bytes, this`disk, this`arrived, this`clock
      ensures Valid()
      ensures r.Value? || r.Panic? || r.Refused?
      ensures r.Refused? <==> old(ReadRefused(Abs(), rights, v))
      ensures r.Value? ==> r.bytes == b && OnlyPage(old(Abs()), Abs(), v, b)
      ensures !r.Value? || v in old(pte) ==> SameMemory(old(Abs()), Abs())
      ensures r.Panic? ==> UsedUp()
    {
      var f: FaultResult;
      f, b := Touch(v, false);
      match f {
        case Mapped =>
          ReadsWhatIsThere(Abs(), v);
          r := Value(bytes[FrameOf(pte[v])]);
        case Invalid => r := Refused;
        case OutOfMemory => r := Panic;
      }
    }

    /** The processor writes one byte of a present page. */
    method StoreByte(v: nat, off: nat, x: int, ghost b: Bytes)
      requires Valid() && v in pte && Present(pte[v]) && off < PGSIZE
      requires Located(Abs()) && v in Memory(Abs()) && Memory(Abs())[v] == b
      modifies this`bytes
      ensures Valid() && |b| == PGSIZE && OnlyPage(old(Abs()), Abs(), v, b[off := x])
    {
      GoodIsLocated(Abs(), rights);
      ReadsWhatIsThere(Abs(), v);
      var f := FrameOf(pte[v]);
      StoreIsLocal(Abs(), rights, v, bytes[f][off := x]);
      bytes := bytes[f := bytes[f][off := x]];
      assert Abs() == Stored(old(Abs()), v, b[off := x]);
    }

    /** A store. */
    method Write(v: nat, off: nat, x: int) returns (r: Reply, ghost b: Bytes)
      requires Valid() && off < PGSIZE
      modifies this`pte, this`tables, this`free, this`fifo, this`vaddr, this`bytes, this`disk, this`arrived, this`clock
      ensures Valid()
      ensures (r.Done? && CanWrite(rights, v)) || r.Panic? || (r.Refused? && !CanWrite(rights, v))
      ensures r.Done? ==> |b| == PGSIZE && OnlyPage(old(Abs()), Abs(), v, b[off := x])
      ensures r.Done? && v in old(pte) ==> old(Located(Abs())) && v in old(Memory(Abs())) && b == old(Memory(Abs()))[v]
      ensures !r.Done? ==> SameMemory(old(Abs()), Abs())
      ensures r.Panic? ==> UsedUp()
    {
      var f: FaultResult;
      f, b := Touch(v, true);
      match f {
        case Mapped =>
          ghost var m1 := Abs();
          StoreByte(v, off, x, b);
          OnlyPageTwice(old(Abs()), m1, Abs(), v, b, b[off := x]);
          r := Done;
        case Invalid => r := Refused;
        case OutOfMemory => r := Panic;
      }
    }

    method Serve(a: Access) returns (r: Reply, ghost b: Bytes)
      requires Valid() && (a.Store? ==> a.off < PGSIZE)
      modifies this`pte, this`tables, this`free, this`fifo, this`vaddr, this`bytes, this`disk, this`arrived, this`clock
      ensures Valid() && old(Located(Abs())) && Located(Abs())
      ensures !r.Panic? ==> Served(old(Memory(Abs())), Memory(Abs()), rights, a, r, b)
      ensures r.Panic? ==> Memory(Abs()) == old(Memory(Abs())) && UsedUp()
    {
      GoodIsLocated(Abs(), rights);
      match a {
        case Load(v) => r, b := Read(v);
        case Store(v, off, x) => r, b := Write(v, off, x);
      }
      GoodIsLocated(Abs(), rights);
    }

    /** Transparency: any run of loads and stores, with all its faults and
        evictions, gets the replies a flat memory with some initial contents
        would give, until the machine runs out of memory and swap. */
    method Run(ops: seq<Access>) returns (replies: seq<Reply>, ghost init: map<nat, Bytes>)
      requires Valid() && forall a :: a in ops && a.Store? ==> a.off < PGSIZE
      modifies this`pte, this`tables, this`free, this`fifo, this`vaddr, this`bytes, this`disk, this`arrived, this`clock
      ensures Valid() && old(Located(Abs())) && Located(Abs()) && |replies| <= |ops|
      ensures Tracks(init, old(Memory(Abs())), rights, ops[..|replies|], replies, Memory(Abs()))
      ensures |replies| < |ops| ==> UsedUp()
    {
      GoodIsLocated(Abs(), rights);
      replies, init := [], Memory(Abs());
      while |replies| < |ops|
        invariant Valid() && Located(Abs()) && |replies| <= |ops|
        invariant Tracks(init, old(Memory(Abs())), rights, ops[..|replies|], replies, Memory(Abs()))
        decreases |ops| - |replies|
      {
        ghost var m := Memory(Abs());
        var a := ops[|replies|];
        ghost var b;
        var r;
        r, b := Serve(a);
        if r.Panic? {
          return;
        }
        TracksNext(init, old(Memory(Abs())), rights, ops, replies, m, r, b, Memory(Abs()));
        init := Extended(init, a, r, b);
        replies := replies + [r];
      }
    }
  }
}
