/** The first-fit allocator of physical pages (kern/mm/default_pmm.c). The list
    holds the first page of every free block; its other pages are not listed. */
module FirstFit {
  import opened Runs
  import opened Wrappers

  // ---------- what the list and the page fields say ----------

  ghost function Heads(rs: seq<Run>): seq<nat> {
    seq(|rs|, (i: nat) requires i < |rs| => rs[i].start)
  }

  /** The head of every run carries its length. */
  ghost predicate Sized(property: seq<nat>, rs: seq<Run>) {
    forall i :: 0 <= i < |rs| ==> rs[i].start < rs[i].End() <= |property| && property[rs[i].start] == rs[i].len
  }

  ghost predicate Starts(rs: seq<Run>, x: nat) {
    exists i: nat :: i < |rs| && rs[i].start == x
  }

  /** PG_property marks the heads. */
  ghost predicate Marked(head: seq<bool>, rs: seq<Run>) {
    forall x: nat :: x < |head| ==> (head[x] <==> Starts(rs, x))
  }

  class Manager {
    const property: array<nat>
    const head: array<bool>               // PG_property
    const reserved: array<bool>           // PG_reserved
    var list: seq<nat>
    var nrFree: nat
    ghost var runs: seq<Run>

    ghost predicate Shape()
      reads this
    {
      property.Length == head.Length == reserved.Length && (head as object) != reserved
    }

    /** The list and the page fields hold the runs, in whatever order. */
    ghost predicate Listed()
      reads this, property, head, reserved
    {
      && Shape() && nrFree == Total(runs)
      && list == Heads(runs) && Sized(property[..], runs) && Marked(head[..], runs)
      && forall x: nat :: x < reserved.Length && reserved[x] ==> !Free(runs, x)
    }

    ghost predicate Valid()
      reads this, property, head, reserved
    {
      Listed() && Canonical(runs)
    }

    /** All pages are reserved and none is free. */
    constructor (npage: nat)
      ensures Valid() && runs == [] && property.Length == npage
      ensures fresh(property) && fresh(head) && fresh(reserved)
      ensures forall x: nat :: x < npage ==> reserved[x]
    {
      property := new nat[npage](_ => 0);
      head := new bool[npage](_ => false);
      reserved := new bool[npage](_ => true);
      list, nrFree, runs := [], 0, [];
    }

    /** default_alloc_pages: the lowest n contiguous free pages, or nothing exactly
        if there are no n contiguous free pages. */
    method AllocPages(n: nat) returns (page: Option<nat>)
      requires Valid() && n > 0
      modifies this, property, head
      ensures Valid()
      ensures page.None? <==> forall q: int :: !Contiguous(old(runs), q, n)
      ensures page.None? ==> runs == old(runs)
      ensures page.Some? ==>
                && Contiguous(old(runs), page.value, n)
                && (forall q: int :: Contiguous(old(runs), q, n) ==> page.value <= q)
                && forall x: int :: Free(runs, x) <==> Free(old(runs), x) && !(page.value <= x < page.value + n)
    {
      page := None;
      if n > nrFree {
        forall i: nat | i < |runs| ensures runs[i].len < n {
          RunWithinTotal(runs, i);
        }
        NoRoom(runs, n);
        return;
      }
      var le := 0;
      while le < |list| && property[list[le]] < n
        invariant 0 <= le <= |list| && forall j :: 0 <= j < le ==> runs[j].len < n
      {
        le := le + 1;
      }
      if le == |list| {
        NoRoom(runs, n);
        return;
      }
      var p := list[le];
      FirstFitIsLowest(runs, le, n);
      CutKeepsCanonical(runs, le, n);
      CutTotal(runs, le, n);
      forall x: int ensures Free(Cut(runs, le, n), x) <==> Free(runs, x) && !(p <= x < p + n) {
        CutFrees(runs, le, n, x);
      }
      Detach(le, n);
      page := Some(p);
    }

    /** Taking n pages off block le. */
    method Detach(le: nat, n: nat)
      requires Shape() && Canonical(runs) && list == Heads(runs) && Sized(property[..], runs) && Marked(head[..], runs)
      requires le < |runs| && 0 < n <= runs[le].len && n <= nrFree
      modifies this, property, head
      ensures Shape() && runs == Cut(old(runs), le, n) && nrFree == old(nrFree) - n
      ensures list == Heads(runs) && Sized(property[..], runs) && Marked(head[..], runs)
    {
      var page := list[le];
      ghost var before, cut := runs, Cut(runs, le, n);
      CutMarks(head[..], runs, le, n);
      CutSizes(property[..], runs, le, n);
      CutHeads(runs, le, n);
      if property[page] > n {
        var p := page + n;
        property[p] := property[page] - n;
        head[p] := true;
        list := list[..le + 1] + [p] + list[le + 1..];
      }
      list := list[..le] + list[le + 1..];
      nrFree := nrFree - n;
      head[page] := false;
      runs := cut;
      assert head[..] == (if n < before[le].len then old(head[..])[page + n := true] else old(head[..]))[page := false];
      assert property[..] == if n < before[le].len then old(property[..])[page + n := before[le].len - n] else old(property[..]);
    }

    /** default_init_memmap: a block of reserved pages becomes free, at the end of
        the list; the list stays in order exactly if the block is above all others. */
    method InitMemmap(base: nat, n: nat)
      requires Listed() && n > 0 && base + n <= reserved.Length && (forall x: nat :: base <= x < base + n ==> reserved[x])
      modifies this, property, head, reserved
      ensures Listed() && runs == old(runs) + [Run(base, n)]
      ensures forall x: int :: Free(runs, x) <==> Free(old(runs), x) || base <= x < base + n
      ensures Valid() <==> old(Valid()) && (old(runs) == [] || old(runs[|runs| - 1].End()) < base)
      ensures forall x: nat :: x < reserved.Length ==> reserved[x] == (old(reserved[x]) && !(base <= x < base + n))
    {
      ghost var r := Run(base, n);
      HeadsAreFree(property[..], head[..], runs);
      ClearPages(base, n);
      AppendMeaning(runs, r);
      AppendOrder(runs, r);
      assert forall i :: 0 <= i < |runs| ==> runs[i].start != base by {
        assert !Free(runs, base) && forall i :: 0 <= i < |runs| ==> In(runs[i], runs[i].start);
      }
      AppendBlock(base, n);
      assert forall x: int :: In(r, x) <==> base <= x < base + n;
    }

    method ClearPages(base: nat, n: nat)
      requires Shape() && base + n <= head.Length && Sized(property[..], runs)
      requires forall x: nat :: base <= x < base + n ==> !head[x] && !Free(runs, x)
      modifies property, head, reserved
      ensures Sized(property[..], runs) && head[..] == old(head[..])
      ensures forall x: nat :: x < reserved.Length ==> reserved[x] == (old(reserved[x]) && !(base <= x < base + n))
    {
      var p := base;
      while p != base + n
        invariant base <= p <= base + n && Sized(property[..], runs) && head[..] == old(head[..])
        invariant forall x: nat :: x < reserved.Length ==> reserved[x] == (old(reserved[x]) && !(base <= x < p))
      {
        assert !old(head[..])[p] && !Free(runs, p);
        ghost var before := reserved[..];
        ClearPage(p);
        assert forall x: nat :: x < reserved.Length ==> reserved[..][x] == (before[x] && x != p);
        p := p + 1;
      }
    }

    method AppendBlock(base: nat, n: nat)
      requires Shape() && n > 0 && base + n <= head.Length && list == Heads(runs) && Sized(property[..], runs) && Marked(head[..], runs)
      requires forall i :: 0 <= i < |runs| ==> runs[i].start != base
      modifies this, property, head
      ensures Shape() && runs == old(runs) + [Run(base, n)] && nrFree == old(nrFree) + n
      ensures list == Heads(runs) && Sized(property[..], runs) && Marked(head[..], runs)
    {
      ghost var rs := runs;
      property[base] := n;
      head[base] := true;
      nrFree := nrFree + n;
      list := list + [base];
      runs := runs + [Run(base, n)];
      StartsAfter(rs, Run(base, n));
    }

    method ClearPage(p: nat)
      requires Shape() && p < head.Length && !head[p] && Sized(property[..], runs) && !Free(runs, p)
      modifies property, head, reserved
      ensures Sized(property[..], runs) && head[..] == old(head[..])
      ensures reserved[..] == old(reserved[..])[p := false]
    {
      forall i: nat | i < |runs| ensures runs[i].start != p {
        assert In(runs[i], runs[i].start);
      }
      property[p] := 0;
      head[p] := false;
      reserved[p] := false;
    }

    /** default_free_pages: the pages become free again and the list stays canonical. */
    method FreePages(base: nat, n: nat)
      requires Valid() && n > 0 && base + n <= head.Length
      requires forall x: nat :: base <= x < base + n ==> !reserved[x] && !Free(runs, x)
      modifies this, property, head, reserved
      ensures Valid() && reserved[..] == old(reserved[..])
      ensures forall x: int :: Free(runs, x) <==> Free(old(runs), x) || base <= x < base + n
    {
      ghost var given := Run(base, n);
      HeadsAreFree(property[..], head[..], runs);
      ResetPages(base, n);
      ScanStart(runs, given);
      NotAmongStarts(runs, [], given, 0);
      SetHead(base, n);
      PutBack(base, n, given);
      assert forall x: int :: In(given, x) <==> base <= x < base + n;
    }

    method PutBack(base: nat, n: nat, ghost given: Run)
      requires Scanning(runs, given, 0, [], given) && Merging(runs, given) && given == Run(base, n)
      modifies this, property, head
      ensures Shape() && Canonical(runs) && Total(runs) == Total(old(runs)) + n && nrFree == old(nrFree) + n
      ensures forall x: int :: Free(runs, x) <==> Free(old(runs), x) || In(given, x)
      ensures list == Heads(runs) && Sized(property[..], runs) && Marked(head[..], runs)
    {
      var b;
      ghost var kept, block;
      b, kept, block := SwallowNeighbours(base, given);
      nrFree := nrFree + n;
      InsertBlock(b, given, kept, block);
    }

    /** Giving back what was just taken restores the very same list. */
    method AllocThenFree(n: nat) returns (page: Option<nat>)
      requires Valid() && n > 0
      modifies this, property, head, reserved
      ensures Valid() && runs == old(runs) && list == old(list) && nrFree == old(nrFree)
    {
      ghost var before := runs;
      ghost var lengths := property[..];
      page := AllocPages(n);
      if page.Some? {
        LastPage(lengths, before, page.value, n);
        FreePages(page.value, n);
        CanonicalIsUnique(before, runs);
      }
    }

    /** The first loop of default_free_pages, which finds every flag clear already. */
    method ResetPages(base: nat, n: nat)
      requires Shape() && base + n <= head.Length && forall x: nat :: base <= x < base + n ==> !reserved[x] && !head[x]
      modifies head, reserved
      ensures head[..] == old(head[..]) && reserved[..] == old(reserved[..])
    {
      var p := base;
      while p != base + n
        invariant base <= p <= base + n && head[..] == old(head[..]) && reserved[..] == old(reserved[..])
      {
        assert !old(reserved[..])[p] && !old(head[..])[p];
        head[p] := false;
        reserved[p] := false;
        p := p + 1;
      }
    }

    /** The state of the list while block b is being merged: b is not listed, but its
        head carries its length and its mark. */
    ghost predicate Merging(all: seq<Run>, b: Run)
      reads this, property, head
    {
      && Shape() && list == Heads(all) && Sized(property[..], all) && !Starts(all, b.start)
      && b.start < b.End() <= property.Length && property[b.start] == b.len && MarkedAnd(head[..], all, b.start)
    }

    method SetHead(base: nat, n: nat)
      requires Shape() && list == Heads(runs) && Sized(property[..], runs) && Marked(head[..], runs) && !Starts(runs, base)
      requires n > 0 && base + n <= head.Length
      modifies property, head
      ensures Merging(runs, Run(base, n))
    {
      property[base] := n;
      head[base] := true;
      assert forall i: nat :: i < |runs| ==> runs[i].start != base;
    }

    /** The second loop of default_free_pages. */
    method SwallowNeighbours(base0: nat, ghost given: Run) returns (base: nat, ghost kept: seq<Run>, ghost b: Run)
      requires Scanning(runs, given, 0, [], given) && Merging(runs, given) && base0 == given.start
      modifies `list, property, head
      ensures Scanning(runs, given, |runs|, kept, b) && Merging(kept, b) && base == b.start && Canonical(kept)
    {
      base, kept, b := base0, [], given;
      ghost var i := 0;
      var le := 0;
      assert [] + runs[0..] == runs;
      while le < |list|
        invariant 0 <= i <= |runs| && Scanning(runs, given, i, kept, b) && Merging(kept + runs[i..], b)
        invariant base == b.start && le == |kept|
        decreases |runs| - i
      {
        base, le, kept, b := LookAt(base, le, given, i, kept, b);
        i := i + 1;
      }
      assert i == |runs|;
      assert kept + runs[i..] == kept;
    }

    /** The body of that loop. */
    method LookAt(base0: nat, le0: nat, ghost given: Run, ghost i: nat, ghost kept0: seq<Run>, ghost b0: Run)
      returns (base: nat, le: nat, ghost kept: seq<Run>, ghost b: Run)
      requires i < |runs| && Scanning(runs, given, i, kept0, b0) && Merging(kept0 + runs[i..], b0)
      requires base0 == b0.start && le0 == |kept0|
      modifies `list, property, head
      ensures Scanning(runs, given, i + 1, kept, b) && Merging(kept + runs[i + 1..], b) && base == b.start && le == |kept|
    {
      ghost var rs, all := runs, kept0 + runs[i..];
      b := Swallow(b0, rs[i]);
      kept := if b == b0 then kept0 + [rs[i]] else kept0;
      ListAfter(kept0, rs, i);
      assert Canonical(all) && Disjoint(all[le0], b0);
      base, le := MergeOne(base0, le0, all, b0);
      assert Scanning(rs, given, i + 1, kept, b) by {
        ScanStep(rs, given, i, kept0, b0);
      }
    }

    /** Its effect on the list: the block swallows run le of the list if they touch. */
    method MergeOne(base0: nat, le0: nat, ghost all: seq<Run>, ghost b: Run) returns (base: nat, le: nat)
      requires Merging(all, b) && base0 == b.start && le0 < |all| && Canonical(all) && Disjoint(all[le0], b)
      modifies `list, property, head
      ensures var b' := Swallow(b, all[le0]);
              && base == b'.start && le == (if b' == b then le0 + 1 else le0)
              && Merging(if b' == b then all else all[..le0] + all[le0 + 1..], b')
    {
      base, le := base0, le0;
      var p := list[le];
      ghost var rest := all[..le0] + all[le0 + 1..];
      WithoutRun(property[..], all, le0);
      if base + property[base] == p {
        property[base] := property[base] + property[p];
        head[p] := false;
        list := list[..le] + list[le + 1..];
      } else if p + property[p] == base {
        property[p] := property[p] + property[base];
        head[base] := false;
        base := p;
        list := list[..le] + list[le + 1..];
      } else {
        le := le + 1;
      }
    }

    /** The last loop of default_free_pages finds where the block belongs. */
    method InsertBlock(base: nat, ghost given: Run, ghost kept: seq<Run>, ghost b: Run)
      requires Scanning(runs, given, |runs|, kept, b) && Merging(kept, b) && base == b.start && Canonical(kept)
      modifies `list, `runs
      ensures Canonical(runs) && Total(runs) == Total(old(runs)) + given.len
      ensures forall x: int :: Free(runs, x) <==> Free(old(runs), x) || In(given, x)
      ensures list == Heads(runs) && Sized(property[..], runs) && Marked(head[..], runs)
    {
      var le := 0;
      while le < |list| && base + property[base] > list[le]
        invariant 0 <= le <= |list| && forall k :: 0 <= k < le ==> kept[k].start < b.End()
      {
        le := le + 1;
      }
      assert Position(kept, b, le);
      InsertKeepsCanonical(runs, given, kept, b, le);
      InsertMarks(kept, b, le);
      InsertSizes(property[..], kept, b, le);
      assert le < |list| ==> base + property[base] != list[le];
      list := list[..le] + [base] + list[le..];
      runs := kept[..le] + [b] + kept[le..];
    }
  }

  /** Free pages are pages. */
  lemma LastPage(property: seq<nat>, rs: seq<Run>, p: nat, n: nat)
    requires Sized(property, rs) && n > 0 && Contiguous(rs, p, n)
    ensures p + n <= |property|
  {
    assert Free(rs, p + n - 1);
  }

  /** As Marked, and one more page carries the mark. */
  ghost predicate MarkedAnd(head: seq<bool>, rs: seq<Run>, s: nat) {
    forall x: nat :: x < |head| ==> (head[x] <==> x == s || Starts(rs, x))
  }

  lemma ScanStart(rs: seq<Run>, given: Run)
    requires Canonical(rs) && given.len > 0 && forall x: nat :: In(given, x) ==> !Free(rs, x)
    ensures Scanning(rs, given, 0, [], given)
  {
    ScanStartOrdered(rs, given);
    assert rs[0..] == rs;
    forall x: int ensures PageStays(rs, given, 0, [], given, x) {
      StaysAtStart(rs, given, x);
    }
  }

  lemma ScanStartOrdered(rs: seq<Run>, given: Run)
    requires Canonical(rs) && given.len > 0 && forall x: nat :: In(given, x) ==> !Free(rs, x)
    ensures ScanOrdered(rs, 0, [], given)
  {
    assert [] + rs[0..] == rs;
    forall k | 0 <= k < |rs| ensures Disjoint(rs[k], given) {
      FreeIsDisjoint(rs, k, given);
    }
  }

  lemma StaysAtStart(rs: seq<Run>, given: Run, x: int)
    ensures PageStays(rs, given, 0, [], given, x)
  {
    assert rs[0..] == rs;
  }

  lemma FreeIsDisjoint(rs: seq<Run>, k: nat, given: Run)
    requires k < |rs| && rs[k].len > 0 && given.len > 0 && forall x: nat :: In(given, x) ==> !Free(rs, x)
    ensures Disjoint(rs[k], given)
  {
    assert In(rs[k], rs[k].start) && Free(rs, rs[k].start);
    assert In(given, given.start) && !Free(rs, given.start);
  }

  lemma NotAmongStarts(rs: seq<Run>, kept: seq<Run>, b: Run, i: nat)
    requires i <= |rs| && b.len > 0 && (forall k :: i <= k < |rs| ==> rs[k].len > 0 && Disjoint(rs[k], b))
    ensures !Starts(rs[i..], b.start)
  {
  }

  lemma ListAfter(kept: seq<Run>, rs: seq<Run>, i: nat)
    requires i < |rs|
    ensures var all := kept + rs[i..];
            && all[|kept|] == rs[i] && all[..|kept|] + all[|kept| + 1..] == kept + rs[i + 1..]
            && kept + [rs[i]] + rs[i + 1..] == all
  {
  }

  /** Dropping run i from the list. */
  lemma WithoutRun(property: seq<nat>, all: seq<Run>, i: nat)
    requires Canonical(all) && i < |all| && Sized(property, all)
    ensures var rest := all[..i] + all[i + 1..];
            && Heads(rest) == Heads(all)[..i] + Heads(all)[i + 1..] && Sized(property, rest)
            && forall x: nat :: Starts(rest, x) <==> Starts(all, x) && x != all[i].start
  {
    forall x: nat ensures Starts(all[..i] + all[i + 1..], x) <==> Starts(all, x) && x != all[i].start {
      StartsWithout(all, i, x);
    }
  }

  lemma InsertSizes(property: seq<nat>, kept: seq<Run>, b: Run, t: nat)
    requires t <= |kept| && Sized(property, kept) && b.start < b.End() <= |property| && property[b.start] == b.len
    ensures var r := kept[..t] + [b] + kept[t..];
            Sized(property, r) && Heads(r) == Heads(kept)[..t] + [b.start] + Heads(kept)[t..]
  {
    var r := kept[..t] + [b] + kept[t..];
    assert forall i :: 0 <= i < |r| ==> r[i] == if i == t then b else kept[if i < t then i else i - 1];
  }

  lemma InsertMarks(kept: seq<Run>, b: Run, t: nat)
    requires t <= |kept|
    ensures forall x: nat :: Starts(kept[..t] + [b] + kept[t..], x) <==> x == b.start || Starts(kept, x)
  {
    var r := kept[..t] + [b] + kept[t..];
    forall x: nat ensures Starts(r, x) <==> x == b.start || Starts(kept, x) {
      assert r[t] == b;
      if Starts(kept, x) {
        var i: nat :| i < |kept| && kept[i].start == x;
        assert r[if i < t then i else i + 1].start == x;
      }
      if Starts(r, x) && x != b.start {
        var i: nat :| i < |r| && r[i].start == x;
        assert kept[if i < t then i else i - 1].start == x;
      }
    }
  }

  /** Page p has PG_property only if it is free. */
  lemma HeadsAreFree(property: seq<nat>, head: seq<bool>, rs: seq<Run>)
    requires Sized(property, rs) && Marked(head, rs)
    ensures forall x: nat :: x < |head| && head[x] ==> Free(rs, x)
  {
    forall x: nat | x < |head| && head[x] ensures Free(rs, x) {
      var i: nat :| i < |rs| && rs[i].start == x;
      assert In(rs[i], x);
    }
  }

  lemma AppendMeaning(rs: seq<Run>, r: Run)
    ensures Total(rs + [r]) == Total(rs) + r.len
    ensures forall x: int :: Free(rs + [r], x) <==> Free(rs, x) || In(r, x)
  {
    TotalOf(rs, [r]);
    assert Total([r]) == r.len;
    forall x: int ensures Free(rs + [r], x) <==> Free(rs, x) || In(r, x) {
      FreeOf(rs, [r], x);
      FreeOne(r, x);
    }
  }

  /** One more run at the end keeps the order exactly if it is above the last one. */
  lemma AppendOrder(rs: seq<Run>, r: Run)
    requires r.len > 0
    ensures Canonical(rs + [r]) <==> Canonical(rs) && (rs == [] || rs[|rs| - 1].End() < r.start)
  {
    var all := rs + [r];
    assert forall i :: 0 <= i < |rs| ==> all[i] == rs[i];
    if Canonical(all) {
      assert rs != [] ==> all[|rs| - 1].End() < all[|rs|].start;
    }
    if Canonical(rs) && (rs == [] || rs[|rs| - 1].End() < r.start) {
      forall i | 0 <= i < |rs| ensures rs[i].End() < r.start {
        assert i < |rs| - 1 ==> rs[i].End() < rs[|rs| - 1].start;
      }
    }
  }

  lemma StartsAfter(rs: seq<Run>, r: Run)
    ensures forall x: nat :: Starts(rs + [r], x) <==> Starts(rs, x) || x == r.start
  {
    var all := rs + [r];
    assert all[|rs|] == r;
    forall x: nat | Starts(rs, x) ensures Starts(all, x) {
      var i: nat :| i < |rs| && rs[i].start == x;
      assert all[i].start == x;
    }
  }

  lemma StartsWithout(rs: seq<Run>, i: nat, x: nat)
    requires Canonical(rs) && i < |rs|
    ensures Starts(rs[..i] + rs[i + 1..], x) <==> Starts(rs, x) && x != rs[i].start
  {
    if Starts(rs[..i] + rs[i + 1..], x) {
      var k := StartsOfLess(rs, i, x);
      assert k < i ==> rs[k].End() < rs[i].start;
      assert k > i ==> rs[i].End() < rs[k].start;
    }
    if Starts(rs, x) && x != rs[i].start {
      StartsOfMore(rs, i, x);
    }
  }

  lemma StartsOfLess(rs: seq<Run>, i: nat, x: nat) returns (k: nat)
    requires i < |rs| && Starts(rs[..i] + rs[i + 1..], x)
    ensures k < |rs| && k != i && rs[k].start == x
  {
    var rest := rs[..i] + rs[i + 1..];
    var j: nat :| j < |rest| && rest[j].start == x;
    k := if j < i then j else j + 1;
    assert rest[j] == rs[k];
  }

  lemma StartsOfMore(rs: seq<Run>, i: nat, x: nat)
    requires i < |rs| && Starts(rs, x) && x != rs[i].start
    ensures Starts(rs[..i] + rs[i + 1..], x)
  {
    var rest := rs[..i] + rs[i + 1..];
    var j: nat :| j < |rs| && rs[j].start == x;
    assert rest[if j < i then j else j - 1] == rs[j];
  }

  lemma StartsReplaced(rs: seq<Run>, i: nat, r: Run, x: nat)
    requires Canonical(rs) && i < |rs|
    ensures Starts(rs[i := r], x) <==> (Starts(rs, x) && x != rs[i].start) || x == r.start
  {
    var rest := rs[i := r];
    assert x == r.start ==> rest[i].start == x;
    if Starts(rs, x) && x != rs[i].start {
      var j: nat :| j < |rs| && rs[j].start == x;
      assert rest[j].start == x;
    }
  }

  lemma CutHeads(rs: seq<Run>, i: nat, n: nat)
    requires i < |rs| && n <= rs[i].len
    ensures var list, p := Heads(rs), rs[i].start + n;
            var longer := if n < rs[i].len then list[..i + 1] + [p] + list[i + 1..] else list;
            Heads(Cut(rs, i, n)) == longer[..i] + longer[i + 1..]
  {
  }

  lemma CutSizes(property: seq<nat>, rs: seq<Run>, i: nat, n: nat)
    requires Canonical(rs) && i < |rs| && 0 < n <= rs[i].len && Sized(property, rs)
    ensures var property' := if n < rs[i].len then property[rs[i].start + n := rs[i].len - n] else property;
            Sized(property', Cut(rs, i, n))
  {
    var cut := Cut(rs, i, n);
    assert forall j :: 0 <= j < |cut| ==> if n < rs[i].len then j == i || cut[j] == rs[j] else cut[j] == rs[if j < i then j else j + 1];
  }

  lemma CutMarks(head: seq<bool>, rs: seq<Run>, i: nat, n: nat)
    requires Canonical(rs) && i < |rs| && 0 < n <= rs[i].len && Marked(head, rs) && rs[i].End() <= |head|
    ensures var head' := if n < rs[i].len then head[rs[i].start + n := true] else head;
            Marked(head'[rs[i].start := false], Cut(rs, i, n))
  {
    var r := Run(rs[i].start + n, rs[i].len - n);
    forall x: nat | x < |head|
      ensures n < rs[i].len ==> (Starts(Cut(rs, i, n), x) <==> (head[x] && x != rs[i].start) || x == r.start)
      ensures n == rs[i].len ==> (Starts(Cut(rs, i, n), x) <==> head[x] && x != rs[i].start)
    {
      StartsWithout(rs, i, x);
      StartsReplaced(rs, i, r, x);
    }
  }
}
