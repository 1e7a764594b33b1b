/** Virtual memory areas as values: sorted lists of intervals with flags, and
    what it means to take a range out of them (kern/mm/vmm.c). */
module Areas {
  import opened Wrappers

  const USERBASE := 0x0020_0000
  const USERTOP := 0xB000_0000
  const KERNBASE := 0xC000_0000
  const KERNTOP := 0xF800_0000

  const VM_READ := 1
  const VM_WRITE := 2
  const VM_EXEC := 4
  const VM_STACK := 8

  /** The addresses [start, end) with their flags. */
  datatype Area = Area(start: nat, end: nat, flags: nat) {
    predicate Has(x: int) {
      start <= x < end
    }
  }

  predicate HasFlag(flags: nat, bit: nat)
    requires bit > 0
  {
    flags / bit % 2 == 1
  }

  predicate UserAccess(start: nat, end: nat) {
    USERBASE <= start < end <= USERTOP
  }

  predicate KernAccess(start: nat, end: nat) {
    KERNBASE <= start < end <= KERNTOP
  }

  predicate Aligned(x: nat) {
    x % PGSIZE == 0
  }

  ghost predicate WellFormed(a: Area) {
    USERBASE <= a.start < a.end <= USERTOP && Aligned(a.start) && Aligned(a.end)
  }

  ghost predicate Sorted(s: seq<Area>) {
    && (forall i :: 0 <= i < |s| ==> WellFormed(s[i]))
    && (forall i, j :: 0 <= i < j < |s| ==> s[i].end <= s[j].start)
  }

  /** The area that holds an address: what a plain scan of the list finds. */
  ghost function At(s: seq<Area>, x: int): Option<Area> {
    if s == [] then None else if s[0].Has(x) then Some(s[0]) else At(s[1..], x)
  }

  /** The flags of an address: what the list means. */
  ghost function FlagsAt(s: seq<Area>, x: int): Option<nat> {
    match At(s, x)
    case None => None
    case Some(a) => Some(a.flags)
  }

  lemma {:induction false} AtIndex(s: seq<Area>, i: nat, x: int)
    requires Sorted(s) && i < |s| && s[i].Has(x)
    ensures At(s, x) == Some(s[i])
  {
    if i > 0 {
      AtIndex(s[1..], i - 1, x);
    }
  }

  lemma {:induction false} AtNone(s: seq<Area>, x: int)
    requires forall i :: 0 <= i < |s| ==> !s[i].Has(x)
    ensures At(s, x) == None
  {
    if s != [] {
      AtNone(s[1..], x);
    }
  }

  lemma {:induction false} AtSome(s: seq<Area>, x: int) returns (i: nat)
    requires At(s, x).Some?
    ensures i < |s| && s[i] == At(s, x).value && s[i].Has(x)
  {
    if s[0].Has(x) {
      i := 0;
    } else {
      var k := AtSome(s[1..], x);
      i := k + 1;
    }
  }

  lemma {:induction false} AtConcat(s: seq<Area>, t: seq<Area>, x: int)
    ensures At(s + t, x) == if At(s, x).Some? then At(s, x) else At(t, x)
  {
    if s == [] {
      assert s + t == t;
    } else {
      assert (s + t)[1..] == s[1..] + t;
      AtConcat(s[1..], t, x);
    }
  }

  // ---------- taking a range out ----------

  ghost function LeftPiece(a: Area, s: nat): seq<Area> {
    if a.start < s then [a.(end := if a.end < s then a.end else s)] else []
  }

  ghost function RightPiece(a: Area, e: nat): seq<Area> {
    if e < a.end then [a.(start := if a.start < e then e else a.start)] else []
  }

  /** What is left of every area when [s, e) is unmapped. */
  ghost function Unmapped(l: seq<Area>, s: nat, e: nat): seq<Area> {
    if l == [] then [] else LeftPiece(l[0], s) + RightPiece(l[0], e) + Unmapped(l[1..], s, e)
  }

  /** Unmapping removes exactly the addresses of [s, e). */
  lemma {:induction false} UnmappedMeaning(l: seq<Area>, s: nat, e: nat, x: int)
    requires s < e && forall i :: 0 <= i < |l| ==> l[i].start < l[i].end
    requires forall i, j :: 0 <= i < j < |l| ==> l[i].end <= l[j].start
    ensures FlagsAt(Unmapped(l, s, e), x) == if s <= x < e then None else FlagsAt(l, x)
  {
    if l != [] {
      UnmappedMeaning(l[1..], s, e, x);
      AtConcat(LeftPiece(l[0], s) + RightPiece(l[0], e), Unmapped(l[1..], s, e), x);
      AtConcat(LeftPiece(l[0], s), RightPiece(l[0], e), x);
      if l[0].Has(x) {
        forall i | 0 <= i < |l[1..]| ensures !l[1..][i].Has(x) {
        }
        AtNone(l[1..], x);
      }
    }
  }

  lemma {:induction false} UnmappedConcat(l: seq<Area>, m: seq<Area>, s: nat, e: nat)
    ensures Unmapped(l + m, s, e) == Unmapped(l, s, e) + Unmapped(m, s, e)
  {
    if l == [] {
      assert l + m == m;
    } else {
      assert (l + m)[1..] == l[1..] + m;
      UnmappedConcat(l[1..], m, s, e);
    }
  }

  lemma {:induction false} UnmappedBefore(l: seq<Area>, s: nat, e: nat)
    requires s < e && forall i :: 0 <= i < |l| ==> l[i].start < l[i].end <= s
    ensures Unmapped(l, s, e) == l
  {
    if l != [] {
      UnmappedBefore(l[1..], s, e);
    }
  }

  lemma {:induction false} UnmappedAfter(l: seq<Area>, s: nat, e: nat)
    requires s < e && forall i :: 0 <= i < |l| ==> e <= l[i].start < l[i].end
    ensures Unmapped(l, s, e) == l
  {
    if l != [] {
      UnmappedAfter(l[1..], s, e);
    }
  }

  lemma {:induction false} UnmappedInside(l: seq<Area>, s: nat, e: nat)
    requires forall i :: 0 <= i < |l| ==> s <= l[i].start && l[i].end <= e
    ensures Unmapped(l, s, e) == []
  {
    if l != [] {
      UnmappedInside(l[1..], s, e);
    }
  }

  /** The areas i..m are those that meet [s, e), the first of them holding s. */
  ghost predicate Spans(l: seq<Area>, s: nat, e: nat, i: nat, m: nat) {
    && s < e && i < m <= |l| && l[i].Has(s)
    && (forall j :: i <= j < m ==> l[j].start < e)
    && (m < |l| ==> e <= l[m].start)
  }

  lemma SpanParts(l: seq<Area>, s: nat, e: nat, i: nat, m: nat)
    requires Sorted(l) && Spans(l, s, e, i, m)
    ensures Unmapped(l[..i], s, e) == l[..i] && Unmapped(l[m..], s, e) == l[m..]
    ensures Unmapped(l[i..m], s, e) == LeftPiece(l[i], s) + RightPiece(l[m - 1], e)
  {
    BeforeSpan(l, s, e, i);
    AfterSpan(l, s, e, m);
    WithinSpan(l, s, e, i, m);
  }

  lemma BeforeSpan(l: seq<Area>, s: nat, e: nat, i: nat)
    requires Sorted(l) && s < e && i < |l| && l[i].Has(s)
    ensures Unmapped(l[..i], s, e) == l[..i]
  {
    forall j | 0 <= j < i ensures l[..i][j].start < l[..i][j].end <= s {
      InOrder(l, j, i);
    }
    UnmappedBefore(l[..i], s, e);
  }

  lemma AfterSpan(l: seq<Area>, s: nat, e: nat, m: nat)
    requires Sorted(l) && s < e && m <= |l| && (m < |l| ==> e <= l[m].start)
    ensures Unmapped(l[m..], s, e) == l[m..]
  {
    var after := l[m..];
    forall j | 0 <= j < |after| ensures e <= after[j].start < after[j].end {
      assert after[j] == l[m + j];
      InOrder(l, m, m + j);
    }
    UnmappedAfter(after, s, e);
  }

  lemma WithinSpan(l: seq<Area>, s: nat, e: nat, i: nat, m: nat)
    requires Sorted(l) && Spans(l, s, e, i, m)
    ensures Unmapped(l[i..m], s, e) == LeftPiece(l[i], s) + RightPiece(l[m - 1], e)
  {
    var mid := l[i..m];
    forall j | 0 <= j < |mid| ensures mid[j] == l[i + j] && mid[j].start < mid[j].end && mid[j].start < e {
    }
    forall j, k | 0 <= j < k < |mid| ensures mid[j].end <= mid[k].start {
      InOrder(l, i + j, i + k);
    }
    SpanPieces(mid, s, e);
  }

  lemma Assoc(a: seq<Area>, b: seq<Area>, c: seq<Area>, d: seq<Area>)
    ensures a + (b + c) + d == a + b + c + d
    ensures b == [] && c == [] ==> (a + b) + [] + (c + d) == a + d
  {
  }

  /** Only the first and the last area that meet the range leave anything. */
  lemma UnmappedSpan(l: seq<Area>, s: nat, e: nat, i: nat, m: nat)
    requires Sorted(l) && Spans(l, s, e, i, m)
    ensures Unmapped(l, s, e) == l[..i] + LeftPiece(l[i], s) + RightPiece(l[m - 1], e) + l[m..]
  {
    SpanParts(l, s, e, i, m);
    UnmappedThree(l, i, m, s, e);
    Assoc(l[..i], LeftPiece(l[i], s), RightPiece(l[m - 1], e), l[m..]);
  }

  lemma UnmappedThree(l: seq<Area>, i: nat, m: nat, s: nat, e: nat)
    requires i <= m <= |l|
    ensures Unmapped(l, s, e) == Unmapped(l[..i], s, e) + Unmapped(l[i..m], s, e) + Unmapped(l[m..], s, e)
  {
    assert Unmapped(l[..m], s, e) == Unmapped(l[..i], s, e) + Unmapped(l[i..m], s, e) by {
      assert l[..m] == l[..i] + l[i..m];
      UnmappedConcat(l[..i], l[i..m], s, e);
    }
    assert Unmapped(l, s, e) == Unmapped(l[..m], s, e) + Unmapped(l[m..], s, e) by {
      assert l == l[..m] + l[m..];
      UnmappedConcat(l[..m], l[m..], s, e);
    }
  }

  lemma SpanPieces(l: seq<Area>, s: nat, e: nat)
    requires l != [] && s < e && l[0].Has(s)
    requires forall j :: 0 <= j < |l| ==> l[j].start < l[j].end && l[j].start < e
    requires forall j, k :: 0 <= j < k < |l| ==> l[j].end <= l[k].start
    ensures Unmapped(l, s, e) == LeftPiece(l[0], s) + RightPiece(l[|l| - 1], e)
  {
    var k := |l| - 1;
    UnmappedOne(l[0], s, e);
    UnmappedOne(l[k], s, e);
    if k == 0 {
      assert l == [l[0]];
    } else {
      MiddleGone(l, s, e);
      UnmappedThree(l, 1, k, s, e);
      assert l[..1] == [l[0]] && l[k..] == [l[k]];
      assert LeftPiece(l[k], s) == [] && RightPiece(l[0], e) == [];
      Assoc(LeftPiece(l[0], s), [], [], RightPiece(l[k], e));
    }
  }

  lemma UnmappedOne(a: Area, s: nat, e: nat)
    ensures Unmapped([a], s, e) == LeftPiece(a, s) + RightPiece(a, e)
  {
    assert Unmapped([a][1..], s, e) == [];
  }

  /** Nothing is left of the areas between the first and the last. */
  lemma MiddleGone(l: seq<Area>, s: nat, e: nat)
    requires |l| > 1 && l[0].Has(s) && l[|l| - 1].start < e
    requires forall j, k :: 0 <= j < k < |l| ==> l[j].end <= l[k].start
    ensures Unmapped(l[1..|l| - 1], s, e) == []
  {
    var mid := l[1..|l| - 1];
    forall j | 0 <= j < |mid| ensures s <= mid[j].start && mid[j].end <= e {
      assert mid[j] == l[j + 1] && l[0].end <= l[j + 1].start && l[j + 1].end <= l[|l| - 1].start;
    }
    UnmappedInside(mid, s, e);
  }

  lemma SpanSorted(l: seq<Area>, s: nat, e: nat, i: nat, m: nat)
    requires Sorted(l) && Spans(l, s, e, i, m) && Aligned(s) && Aligned(e)
    ensures Sorted(l[..i] + LeftPiece(l[i], s) + RightPiece(l[m - 1], e) + l[m..])
  {
    var left, right := LeftPiece(l[i], s), RightPiece(l[m - 1], e);
    forall j | 0 <= j < |l| ensures (j < i ==> l[j].start < l[j].end <= l[i].start) && (j >= m ==> l[m - 1].end <= l[j].start) {
      InOrder(l, j, i);
      InOrder(l, m - 1, j);
    }
    SortedJoin(l[..i], left, l[i].start);
    AfterStart(l, m);
    SortedJoin(l[..i] + left, right, s);
    SortedJoin(l[..i] + left + right, l[m..], if m < |l| then l[m].start else USERTOP);
  }

  lemma AfterStart(l: seq<Area>, m: nat)
    requires Sorted(l) && 0 < m <= |l|
    ensures Sorted(l[m..]) && forall j :: 0 <= j < |l[m..]| ==> l[m].start <= l[m..][j].start
  {
    forall j | 0 <= j < |l[m..]| ensures l[m].start <= l[m..][j].start {
      InOrder(l, m, m + j);
    }
  }

  /** Areas up to x and areas from x on. */
  lemma SortedJoin(a: seq<Area>, b: seq<Area>, x: nat)
    requires Sorted(a) && Sorted(b) && (forall j :: 0 <= j < |a| ==> a[j].end <= x) && (forall j :: 0 <= j < |b| ==> x <= b[j].start)
    ensures Sorted(a + b)
  {
  }

  // ---------- inserting an area ----------

  ghost predicate Apart(l: seq<Area>, a: Area) {
    forall j :: 0 <= j < |l| ==> l[j].end <= a.start || a.end <= l[j].start
  }

  ghost function Inserted(l: seq<Area>, a: Area, k: nat): seq<Area>
    requires k <= |l|
  {
    l[..k] + [a] + l[k..]
  }

  /** k areas start no later than a, and the others start later. */
  ghost predicate PlaceOf(l: seq<Area>, a: Area, k: nat) {
    && k <= |l|
    && (forall j :: 0 <= j < k ==> l[j].start <= a.start)
    && (forall j :: k <= j < |l| ==> l[j].start > a.start)
  }

  ghost predicate NeighboursClear(l: seq<Area>, a: Area, k: nat)
    requires k <= |l|
  {
    (k > 0 ==> l[k - 1].end <= a.start) && (k < |l| ==> a.end <= l[k].start)
  }

  /** Looking at the two neighbours is enough. */
  lemma NeighboursSuffice(l: seq<Area>, a: Area, k: nat)
    requires Sorted(l) && a.start < a.end && PlaceOf(l, a, k)
    ensures NeighboursClear(l, a, k) <==> Apart(l, a)
  {
    if NeighboursClear(l, a, k) {
      forall j | 0 <= j < |l| ensures l[j].end <= a.start || a.end <= l[j].start {
        assert j < k - 1 ==> l[j].end <= l[k - 1].start;
        assert j > k ==> l[k].end <= l[j].start;
      }
    } else if k > 0 && l[k - 1].end > a.start {
      assert !(l[k - 1].end <= a.start || a.end <= l[k - 1].start);
    } else {
      assert !(l[k].end <= a.start || a.end <= l[k].start);
    }
  }

  lemma InsertedSorted(l: seq<Area>, a: Area, k: nat)
    requires Sorted(l) && WellFormed(a) && PlaceOf(l, a, k) && Apart(l, a)
    ensures Sorted(Inserted(l, a, k))
  {
  }

  // ---------- the pages that are unmapped ----------

  /** The part of an area that lies in [s, e). */
  function Clip(a: Area, s: nat, e: nat): (nat, nat) {
    (if a.start < s then s else a.start, if e < a.end then e else a.end)
  }

  predicate InRange(r: (nat, nat), x: int) {
    r.0 <= x < r.1
  }

  /** The ranges handed to unmap_range, one per area, last area first. */
  ghost predicate Clips(l: seq<Area>, s: nat, e: nat, i: nat, m: nat, gone: seq<(nat, nat)>) {
    && i <= m <= |l| && |gone| == m - i
    && forall q :: 0 <= q < |gone| ==> gone[q] == Clip(l[m - 1 - q], s, e)
  }

  lemma InOrder(l: seq<Area>, j: nat, k: nat)
    requires Sorted(l) && j < |l| && k < |l|
    ensures j < k ==> l[j].start < l[j].end <= l[k].start
  {
  }

  lemma ClipsComplete(l: seq<Area>, s: nat, e: nat, i: nat, m: nat, gone: seq<(nat, nat)>, x: int)
    requires Sorted(l) && Spans(l, s, e, i, m) && Clips(l, s, e, i, m, gone)
    requires s <= x < e && At(l, x).Some?
    ensures exists r :: r in gone && InRange(r, x)
  {
    var j := AtSome(l, x);
    InOrder(l, j, i);
    if m < |l| {
      InOrder(l, m, j);
    }
    assert gone[m - 1 - j] in gone && InRange(gone[m - 1 - j], x);
  }

  lemma ClipsSound(l: seq<Area>, s: nat, e: nat, i: nat, m: nat, gone: seq<(nat, nat)>, x: int, r: (nat, nat))
    requires Sorted(l) && Spans(l, s, e, i, m) && Clips(l, s, e, i, m, gone)
    requires r in gone && InRange(r, x)
    ensures s <= x < e && At(l, x).Some?
  {
    var q :| 0 <= q < |gone| && gone[q] == r;
    AtIndex(l, m - 1 - q, x);
  }

  /** They are exactly the addresses that were mapped and lie in [s, e). */
  lemma ClipsExact(l: seq<Area>, s: nat, e: nat, i: nat, m: nat, gone: seq<(nat, nat)>, x: int)
    requires Sorted(l) && Spans(l, s, e, i, m) && Clips(l, s, e, i, m, gone)
    ensures (exists r :: r in gone && InRange(r, x)) <==> s <= x < e && At(l, x).Some?
  {
    if s <= x < e && At(l, x).Some? {
      ClipsComplete(l, s, e, i, m, gone, x);
    }
    if r :| r in gone && InRange(r, x) {
      ClipsSound(l, s, e, i, m, gone, x, r);
    }
  }

  // ---------- cutting a stretch out of a list ----------

  function Cut<T>(s: seq<T>, i: nat, m: nat): (r: seq<T>)
    requires i <= m <= |s|
  {
    s[..i] + s[m..]
  }

  lemma CutMore<T>(s: seq<T>, i: nat, m: nat)
    requires i <= m < |s|
    ensures Cut(Cut(s, i, m), i, i + 1) == Cut(s, i, m + 1) && Cut(s, i, m)[i] == s[m]
  {
  }

  lemma CutIndex<T>(s: seq<T>, k: nat)
    requires k < |s|
    ensures var c := Cut(s, k, k + 1);
            |c| == |s| - 1 && forall i :: 0 <= i < |c| ==> c[i] == s[if i < k then i else i + 1]
  {
  }

  lemma CutKeeps<T>(s: seq<T>, k: nat, x: T)
    requires k < |s| && x in s && x != s[k]
    ensures x in Cut(s, k, k + 1)
  {
    var i :| 0 <= i < |s| && s[i] == x;
    assert Cut(s, k, k + 1)[if i < k then i else i - 1] == x;
  }

  lemma CutSorted(l: seq<Area>, i: nat, m: nat)
    requires Sorted(l) && i <= m <= |l|
    ensures Sorted(Cut(l, i, m))
  {
  }

  /** Areas i..m have been moved from the list to a stack; they all start before e. */
  ghost predicate Detached<T>(l0: seq<T>, a0: seq<Area>, i: nat, m: nat, e: nat, l: seq<T>, a: seq<Area>, freed: seq<T>) {
    && i <= m <= |l0| == |a0|
    && l == Cut(l0, i, m) && a == Cut(a0, i, m) && freed == l0[i..m]
    && forall j :: i <= j < m ==> a0[j].start < e
  }

  lemma DetachNone<T>(l: seq<T>, a: seq<Area>, i: nat, e: nat)
    requires i <= |l| == |a|
    ensures Detached(l, a, i, i, e, l, a, [])
  {
    assert l == Cut(l, i, i) && a == Cut(a, i, i);
  }

  lemma DetachMore<T>(l0: seq<T>, a0: seq<Area>, i: nat, m: nat, e: nat, l: seq<T>, a: seq<Area>, freed: seq<T>)
    requires Detached(l0, a0, i, m, e, l, a, freed) && i < |l| == |a| && a[i].start < e
    ensures Detached(l0, a0, i, m + 1, e, Cut(l, i, i + 1), Cut(a, i, i + 1), freed + [l[i]])
  {
    CutMore(l0, i, m);
    CutMore(a0, i, m);
  }

  lemma DetachedAll<T>(l0: seq<T>, a0: seq<Area>, i: nat, m: nat, e: nat, l: seq<T>, a: seq<Area>, freed: seq<T>)
    requires Detached(l0, a0, i, m, e, l, a, freed) && (i < |a| ==> e <= a[i].start) && i < |a0| && a0[i].start < e
    ensures i < m && (m < |a0| ==> e <= a0[m].start)
  {
    if m < |a0| {
      assert Cut(a0, i, m)[i] == a0[m];
    }
  }

  // ---------- lists with a gap to be filled ----------

  /** Inserting a into l is possible and gives goal. */
  ghost predicate FitsInto(l: seq<Area>, a: Area, goal: seq<Area>) {
    Apart(l, a) && forall p :: PlaceOf(l, a, p) ==> Inserted(l, a, p) == goal
  }

  /** The list while the areas that met the range are out of it: the remains of
      the last one are back when `right`, those of the first one when `left`. */
  ghost function Partly(l: seq<Area>, s: nat, e: nat, i: nat, m: nat, left: bool, right: bool): seq<Area>
    requires i < m <= |l|
  {
    l[..i] + (if left then LeftPiece(l[i], s) else []) + (if right then RightPiece(l[m - 1], e) else []) + l[m..]
  }

  lemma PlaceUnique(l: seq<Area>, a: Area, p: nat, k: nat)
    requires PlaceOf(l, a, p) && PlaceOf(l, a, k)
    ensures p == k
  {
    var x := if p < |l| then l[p].start else a.start;
    var y := if k < |l| then l[k].start else a.start;
  }

  lemma PutRight(l: seq<Area>, s: nat, e: nat, i: nat, m: nat)
    requires Sorted(l) && Spans(l, s, e, i, m) && Aligned(e) && e < l[m - 1].end && s <= l[m - 1].start
    ensures var a := l[m - 1].(start := e); var out := Partly(l, s, e, i, m, false, false);
            WellFormed(a) && FitsInto(out, a, Partly(l, s, e, i, m, false, true))
  {
    var a, out := l[m - 1].(start := e), Partly(l, s, e, i, m, false, false);
    assert out == l[..i] + l[m..];
    forall j | 0 <= j < |out| ensures if j < i then out[j].start < out[j].end <= a.start else a.start < a.end <= out[j].start {
      assert j >= i ==> out[j] == l[m + j - i];
    }
    PutRightShape(l, s, e, i, m);
    FitsAt(out, a, i, Partly(l, s, e, i, m, false, true));
  }

  lemma PutRightShape(l: seq<Area>, s: nat, e: nat, i: nat, m: nat)
    requires i < m <= |l| && l[m - 1].start < e < l[m - 1].end
    ensures Inserted(Partly(l, s, e, i, m, false, false), l[m - 1].(start := e), i) == Partly(l, s, e, i, m, false, true)
  {
    var out := Partly(l, s, e, i, m, false, false);
    assert out == l[..i] + l[m..];
    assert out[..i] == l[..i] && out[i..] == l[m..];
  }

  /** Where area a fits is decided by its neighbours at index i. */
  lemma FitsAt(out: seq<Area>, a: Area, i: nat, goal: seq<Area>)
    requires i <= |out| && a.start < a.end && Inserted(out, a, i) == goal
    requires forall j :: 0 <= j < |out| ==>
               if j < i then out[j].start < out[j].end <= a.start else a.start < a.end <= out[j].start
    ensures FitsInto(out, a, goal)
  {
    forall p | PlaceOf(out, a, p) ensures Inserted(out, a, p) == goal {
      PlaceUnique(out, a, p, i);
    }
  }

  lemma PutLeft(l: seq<Area>, s: nat, e: nat, i: nat, m: nat)
    requires Sorted(l) && Spans(l, s, e, i, m) && Aligned(s) && Aligned(e) && l[i].start < s
    requires i == m - 1 ==> l[i].end <= e
    ensures var a := l[i].(end := s); var out := Partly(l, s, e, i, m, false, true);
            WellFormed(a) && FitsInto(out, a, Partly(l, s, e, i, m, true, true))
  {
    var a, out := l[i].(end := s), Partly(l, s, e, i, m, false, true);
    var r := |RightPiece(l[m - 1], e)|;
    assert i < m - 1 ==> l[i].end <= l[m - 1].start;
    forall j | 0 <= j < |out| ensures if j < i then out[j].start < out[j].end <= a.start else a.start < a.end <= out[j].start {
      assert j >= i + r ==> out[j] == l[m + j - i - r];
    }
    PutLeftShape(l, s, e, i, m);
    FitsAt(out, a, i, Partly(l, s, e, i, m, true, true));
  }

  lemma PutLeftShape(l: seq<Area>, s: nat, e: nat, i: nat, m: nat)
    requires i < m <= |l| && l[i].start < s < l[i].end
    ensures Inserted(Partly(l, s, e, i, m, false, true), l[i].(end := s), i) == Partly(l, s, e, i, m, true, true)
  {
    var out, right := Partly(l, s, e, i, m, false, true), RightPiece(l[m - 1], e);
    assert out == l[..i] + (right + l[m..]);
    assert out[..i] == l[..i] && out[i..] == right + l[m..];
    assert LeftPiece(l[i], s) == [l[i].(end := s)];
  }

  /** One area that reaches beyond the range on both sides. */
  lemma SplitArea(l: seq<Area>, s: nat, e: nat, i: nat)
    requires Sorted(l) && i < |l| && Aligned(s) && Aligned(e) && l[i].start < s < e < l[i].end
    ensures Spans(l, s, e, i, i + 1)
    ensures var behind := l[i := l[i].(start := e)]; var a := l[i].(end := s);
            && Sorted(behind) && WellFormed(a) && Apart(behind, a) && PlaceOf(behind, a, i)
            && Inserted(behind, a, i) == Partly(l, s, e, i, i + 1, true, true)
  {
    SplitOrder(l, s, e, i);
    SplitShape(l, s, e, i);
  }

  lemma SplitOrder(l: seq<Area>, s: nat, e: nat, i: nat)
    requires Sorted(l) && i < |l| && Aligned(s) && Aligned(e) && l[i].start < s < e < l[i].end
    ensures var behind := l[i := l[i].(start := e)]; var a := l[i].(end := s);
            Sorted(behind) && WellFormed(a) && Apart(behind, a) && PlaceOf(behind, a, i)
  {
    forall j | 0 <= j < |l| ensures j < i ==> l[j].start < l[j].end <= l[i].start
                            ensures j > i ==> l[i].end <= l[j].start {
      InOrder(l, j, i);
      InOrder(l, i, j);
    }
  }

  lemma SplitShape(l: seq<Area>, s: nat, e: nat, i: nat)
    requires i < |l| && l[i].start < s < e < l[i].end
    ensures var behind := l[i := l[i].(start := e)]; var a := l[i].(end := s);
            Inserted(behind, a, i) == Partly(l, s, e, i, i + 1, true, true)
  {
    var behind, a := l[i := l[i].(start := e)], l[i].(end := s);
    assert behind[..i] == l[..i] && behind[i..] == [l[i].(start := e)] + l[i + 1..];
    assert LeftPiece(l[i], s) == [a] && RightPiece(l[i], e) == [l[i].(start := e)];
    Assoc(l[..i], [a], [l[i].(start := e)], l[i + 1..]);
  }

  /** Putting the remains of area i + k back when those behind it are done. */
  lemma ReattachStep(l: seq<Area>, s: nat, e: nat, i: nat, m: nat, k: nat)
    requires Sorted(l) && Spans(l, s, e, i, m) && Aligned(s) && Aligned(e) && k < m - i
    requires !(i == m - 1 && l[i].start < s && e < l[i].end)
    ensures var out, goal := Partly(l, s, e, i, m, false, k + 1 < m - i), Partly(l, s, e, i, m, k == 0, true);
            var a := l[i + k];
            && s < a.end && a.start < e && !(a.start < s && e < a.end)
            && (a.start < s ==> FitsInto(out, a.(end := s), goal))
            && (a.start >= s && e < a.end ==> FitsInto(out, a.(start := e), goal))
            && (a.start >= s && a.end <= e ==> out == goal)
  {
    InOrder(l, i, i + k);
    InOrder(l, i + k, m - 1);
    var out := Partly(l, s, e, i, m, false, k + 1 < m - i);
    if l[i + k].start < s {
      PutLeft(l, s, e, i, m);
      assert out == Partly(l, s, e, i, m, false, true);
    } else if e < l[i + k].end {
      PutRight(l, s, e, i, m);
      assert Partly(l, s, e, i, m, k == 0, true) == Partly(l, s, e, i, m, false, true);
    }
  }

  /** [s, e) lies strictly inside one area. */
  ghost predicate Splits(l: seq<Area>, s: nat, e: nat) {
    At(l, s).Some? && At(l, s).value.start < s && e < At(l, s).value.end
  }

  /** What mm_unmap answers for the rounded range [s, e). */
  ghost predicate UnmapResult(before: seq<Area>, after: seq<Area>, s: nat, e: nat, gone: seq<(nat, nat)>) {
    && Sorted(after)
    && (forall x: int :: FlagsAt(after, x) == if s <= x < e then None else FlagsAt(before, x))
    && (forall x: int :: InSome(gone, x) <==> s <= x < e && At(before, x).Some?)
  }

  ghost predicate InSome(gone: seq<(nat, nat)>, x: int) {
    exists r :: r in gone && InRange(r, x)
  }

  lemma PartlyIsUnmapped(l: seq<Area>, s: nat, e: nat, i: nat, m: nat, gone: seq<(nat, nat)>)
    requires Sorted(l) && Spans(l, s, e, i, m) && Clips(l, s, e, i, m, gone) && Aligned(s) && Aligned(e)
    ensures UnmapResult(l, Partly(l, s, e, i, m, true, true), s, e, gone)
  {
    UnmappedSpan(l, s, e, i, m);
    SpanSorted(l, s, e, i, m);
    forall x: int ensures FlagsAt(Unmapped(l, s, e), x) == if s <= x < e then None else FlagsAt(l, x) {
      UnmappedMeaning(l, s, e, x);
    }
    forall x: int ensures InSome(gone, x) <==> s <= x < e && At(l, x).Some? {
      ClipsExact(l, s, e, i, m, gone, x);
    }
  }

  ghost predicate Hole(l: seq<Area>, s: nat, e: nat) {
    forall x: int :: s <= x < e ==> At(l, x).None?
  }

  /** Unmapping nothing is right exactly when nothing was mapped there. */
  lemma NothingToUnmap(l: seq<Area>, s: nat, e: nat)
    requires Sorted(l) && s < e
    ensures UnmapResult(l, l, s, e, []) <==> Hole(l, s, e)
  {
    var none: seq<(nat, nat)> := [];
    if UnmapResult(l, l, s, e, none) {
      forall x: int | s <= x < e ensures At(l, x).None? {
        assert FlagsAt(l, x) == None;
      }
    } else if Hole(l, s, e) {
      forall x: int ensures FlagsAt(l, x) == (if s <= x < e then None else FlagsAt(l, x)) {
        assert s <= x < e ==> At(l, x).None?;
      }
      forall x: int ensures InSome(none, x) <==> s <= x < e && At(l, x).Some? {
        assert s <= x < e ==> At(l, x).None?;
      }
      assert UnmapResult(l, l, s, e, none);
    }
  }

  // ---------- checking user addresses ----------

  /** A user access to x is permitted: some area with the right flag holds it,
      and it does not write into the guard page at the start of a stack. */
  ghost predicate Allowed(l: seq<Area>, x: int, write: bool) {
    && At(l, x).Some?
    && var a := At(l, x).value;
       && HasFlag(a.flags, if write then VM_WRITE else VM_READ)
       && (write && HasFlag(a.flags, VM_STACK) ==> a.start + PGSIZE <= x)
  }

  ghost predicate AllAllowed(l: seq<Area>, s: int, e: int, write: bool) {
    forall x: int :: s <= x < e ==> Allowed(l, x, write)
  }

  /** The tests of user_mem_check for one area, seen from its first address asked for. */
  predicate AreaAllows(a: Area, start: int, write: bool) {
    && HasFlag(a.flags, if write then VM_WRITE else VM_READ)
    && (write && HasFlag(a.flags, VM_STACK) ==> a.start + PGSIZE <= start)
  }

  lemma AllowedThrough(l: seq<Area>, i: nat, start: int, write: bool)
    requires Sorted(l) && i < |l| && l[i].Has(start)
    ensures Allowed(l, start, write) <==> AreaAllows(l[i], start, write)
    ensures AreaAllows(l[i], start, write) ==> AllAllowed(l, start, l[i].end, write)
  {
    AtIndex(l, i, start);
    if AreaAllows(l[i], start, write) {
      forall x: int | start <= x < l[i].end ensures Allowed(l, x, write) {
        AtIndex(l, i, x);
      }
    }
  }

  /** Areas are made of whole pages, so reading is allowed page by page. */
  lemma ReadPageByPage(l: seq<Area>, x: int, y: int)
    requires Sorted(l) && x / PGSIZE == y / PGSIZE && Allowed(l, x, false)
    ensures Allowed(l, y, false)
  {
    var i := AtSome(l, x);
    SamePage(l[i], x, y);
    AtIndex(l, i, y);
  }

  lemma SamePage(a: Area, x: int, y: int)
    requires WellFormed(a) && x / PGSIZE == y / PGSIZE && a.Has(x)
    ensures a.Has(y)
  {
  }

  // ---------- mapping a range ----------

  lemma ApartMeansHole(l: seq<Area>, a: Area)
    requires Sorted(l) && a.start < a.end
    ensures Apart(l, a) <==> Hole(l, a.start, a.end)
  {
    if Apart(l, a) {
      forall x: int | a.start <= x < a.end ensures At(l, x).None? {
        AtNone(l, x);
      }
    } else {
      var j :| 0 <= j < |l| && !(l[j].end <= a.start || a.end <= l[j].start);
      var x := if l[j].start < a.start then a.start else l[j].start;
      AtIndex(l, j, x);
      assert At(l, x).Some?;
    }
  }

  lemma InsertedMeaning(l: seq<Area>, a: Area, k: nat, x: int)
    requires Sorted(l) && k <= |l| && Apart(l, a)
    ensures FlagsAt(Inserted(l, a, k), x) == if a.Has(x) then Some(a.flags) else FlagsAt(l, x)
  {
    AtConcat(l[..k] + [a], l[k..], x);
    AtConcat(l[..k], [a], x);
    AtConcat(l[..k], l[k..], x);
    assert l[..k] + l[k..] == l;
    assert At([a], x) == if a.Has(x) then Some(a) else None;
    if a.Has(x) {
      AtNone(l[..k], x);
    }
  }

  ghost predicate MapResult(before: seq<Area>, after: seq<Area>, s: nat, e: nat, flags: nat) {
    forall x: int :: FlagsAt(after, x) == if s <= x < e then Some(flags) else FlagsAt(before, x)
  }
}
