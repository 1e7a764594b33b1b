/** Sets of pages as lists of runs. A canonical list holds the maximal runs in
    increasing order, so every set has exactly one. */
module Runs {

  datatype Run = Run(start: nat, len: nat) {
    function End(): nat {
      start + len
    }
  }

  ghost predicate In(r: Run, x: int) {
    r.start <= x < r.End()
  }

  /** Page x is in one of the runs. */
  ghost predicate Free(rs: seq<Run>, x: int) {
    exists i: nat :: i < |rs| && In(rs[i], x)
  }

  /** Non-empty runs, in order, with a gap after each. */
  ghost predicate Canonical(rs: seq<Run>) {
    && (forall i :: 0 <= i < |rs| ==> rs[i].len > 0)
    && (forall i, j :: 0 <= i < j < |rs| ==> rs[i].End() < rs[j].start)
  }

  function Total(rs: seq<Run>): nat {
    if rs == [] then 0 else rs[0].len + Total(rs[1..])
  }

  // ---------- uniqueness ----------

  /** The first page of a canonical list, and the first one after its first run. */
  lemma FirstRun(rs: seq<Run>)
    requires Canonical(rs) && |rs| > 0
    ensures Free(rs, rs[0].start) && !Free(rs, rs[0].End())
    ensures forall x: int :: Free(rs, x) ==> rs[0].start <= x
    ensures forall x: int :: In(rs[0], x) ==> Free(rs, x)
  {
    assert In(rs[0], rs[0].start);
  }

  lemma RestFree(rs: seq<Run>, x: int)
    requires Canonical(rs) && |rs| > 0
    ensures Free(rs[1..], x) <==> Free(rs, x) && !In(rs[0], x)
  {
    if Free(rs, x) && !In(rs[0], x) {
      var i: nat :| i < |rs| && In(rs[i], x);
      assert In(rs[1..][i - 1], x);
    }
    if Free(rs[1..], x) {
      var i: nat :| i < |rs[1..]| && In(rs[1..][i], x);
      assert In(rs[i + 1], x);
    }
  }

  /** Equal sets of free pages have equal canonical lists. */
  lemma {:induction false} CanonicalIsUnique(a: seq<Run>, b: seq<Run>)
    requires Canonical(a) && Canonical(b) && forall x: int :: Free(a, x) <==> Free(b, x)
    ensures a == b
  {
    if a == [] {
      if b != [] {
        FirstRun(b);
      }
    } else {
      FirstRun(a);
      if b != [] {
        FirstRun(b);
        SameFirst(a, b);
        forall x: int ensures Free(a[1..], x) <==> Free(b[1..], x) {
          RestFree(a, x);
          RestFree(b, x);
        }
        CanonicalIsUnique(a[1..], b[1..]);
      }
    }
  }

  lemma SameFirst(a: seq<Run>, b: seq<Run>)
    requires Canonical(a) && Canonical(b) && |a| > 0 && |b| > 0 && forall x: int :: Free(a, x) <==> Free(b, x)
    ensures a[0] == b[0]
  {
    FirstRun(a);
    FirstRun(b);
    assert Free(b, a[0].start) && Free(a, b[0].start);
    assert a[0].len < b[0].len ==> In(b[0], a[0].End());
    assert b[0].len < a[0].len ==> In(a[0], b[0].End());
  }

  // ---------- how many pages ----------

  lemma {:induction false} TotalOf(a: seq<Run>, b: seq<Run>)
    ensures Total(a + b) == Total(a) + Total(b)
  {
    if a == [] {
      assert a + b == b;
    } else {
      assert (a + b)[1..] == a[1..] + b;
      TotalOf(a[1..], b);
    }
  }

  lemma {:induction false} RunWithinTotal(rs: seq<Run>, i: nat)
    requires i < |rs|
    ensures rs[i].len <= Total(rs)
  {
    if i > 0 {
      RunWithinTotal(rs[1..], i - 1);
    }
  }

  ghost function Pages(r: Run): (s: set<int>)
    ensures |s| == r.len && forall x: int :: x in s <==> In(r, x)
    decreases r.len
  {
    if r.len == 0 then {} else Pages(Run(r.start, r.len - 1)) + {r.End() - 1}
  }

  /** The total of a canonical list is the number of its pages. */
  lemma {:induction false} TotalIsSize(rs: seq<Run>, s: set<int>)
    requires Canonical(rs) && forall x: int :: x in s <==> Free(rs, x)
    ensures Total(rs) == |s|
  {
    if rs == [] {
      forall x: int ensures x !in s {
        assert x in s <==> Free(rs, x);
      }
      assert s == {};
    } else {
      forall x: int ensures x in s - Pages(rs[0]) <==> Free(rs[1..], x) {
        RestFree(rs, x);
      }
      TotalIsSize(rs[1..], s - Pages(rs[0]));
      forall x: int | x in Pages(rs[0]) ensures x in s {
        assert In(rs[0], x) && Free(rs, x);
      }
      assert s == Pages(rs[0]) + (s - Pages(rs[0]));
    }
  }

  // ---------- taking n pages ----------

  ghost predicate Contiguous(rs: seq<Run>, p: int, n: nat) {
    forall x: int :: p <= x < p + n ==> Free(rs, x)
  }

  /** A range of free pages lies within one run. */
  lemma {:induction false} WithinOneRun(rs: seq<Run>, p: int, n: nat) returns (i: nat)
    requires Canonical(rs) && n > 0 && Contiguous(rs, p, n)
    ensures i < |rs| && rs[i].start <= p && p + n <= rs[i].End()
    decreases n
  {
    if n == 1 {
      assert Free(rs, p);
      i :| 0 <= i < |rs| && In(rs[i], p);
    } else {
      i := WithinOneRun(rs, p, n - 1);
      assert Free(rs, p + n - 1);
      var j: nat :| j < |rs| && In(rs[j], p + n - 1);
    }
  }

  /** Run i is the first one with n pages. */
  ghost predicate FirstFit(rs: seq<Run>, i: nat, n: nat) {
    i < |rs| && rs[i].len >= n && forall j :: 0 <= j < i ==> rs[j].len < n
  }

  /** It starts at the lowest place where n contiguous pages are free. */
  lemma FirstFitIsLowest(rs: seq<Run>, i: nat, n: nat)
    requires Canonical(rs) && n > 0 && FirstFit(rs, i, n)
    ensures Contiguous(rs, rs[i].start, n) && forall q: int :: Contiguous(rs, q, n) ==> rs[i].start <= q
  {
    forall x: int | rs[i].start <= x < rs[i].start + n ensures Free(rs, x) {
      assert In(rs[i], x);
    }
    forall q: int | Contiguous(rs, q, n) ensures rs[i].start <= q {
      var j := WithinOneRun(rs, q, n);
      assert j > i ==> rs[i].End() < rs[j].start;
    }
  }

  lemma NoRoom(rs: seq<Run>, n: nat)
    requires Canonical(rs) && n > 0 && forall i :: 0 <= i < |rs| ==> rs[i].len < n
    ensures forall q: int :: !Contiguous(rs, q, n)
  {
    forall q: int ensures !Contiguous(rs, q, n) {
      if Contiguous(rs, q, n) {
        var j := WithinOneRun(rs, q, n);
      }
    }
  }

  /** Run i loses its first n pages. */
  ghost function Cut(rs: seq<Run>, i: nat, n: nat): seq<Run>
    requires i < |rs| && n <= rs[i].len
  {
    if n < rs[i].len then rs[i := Run(rs[i].start + n, rs[i].len - n)] else rs[..i] + rs[i + 1..]
  }

  lemma CutKeepsCanonical(rs: seq<Run>, i: nat, n: nat)
    requires Canonical(rs) && i < |rs| && n <= rs[i].len
    ensures Canonical(Cut(rs, i, n))
  {
  }

  lemma TotalAround(rs: seq<Run>, i: nat)
    requires i < |rs|
    ensures Total(rs) == Total(rs[..i]) + rs[i].len + Total(rs[i + 1..])
  {
    var tail := rs[i..];
    assert Total(tail) == rs[i].len + Total(rs[i + 1..]) by {
      assert tail[0] == rs[i] && tail[1..] == rs[i + 1..];
    }
    assert Total(rs) == Total(rs[..i]) + Total(tail) by {
      assert rs == rs[..i] + tail;
      TotalOf(rs[..i], tail);
    }
  }

  lemma CutTotal(rs: seq<Run>, i: nat, n: nat)
    requires i < |rs| && n <= rs[i].len
    ensures Total(Cut(rs, i, n)) == Total(rs) - n
  {
    TotalAround(rs, i);
    var cut := Cut(rs, i, n);
    if n < rs[i].len {
      TotalAround(cut, i);
      assert cut[..i] == rs[..i] && cut[i + 1..] == rs[i + 1..];
    } else {
      TotalOf(rs[..i], rs[i + 1..]);
    }
  }

  lemma FreeOf(a: seq<Run>, b: seq<Run>, x: int)
    ensures Free(a + b, x) <==> Free(a, x) || Free(b, x)
  {
    var c := a + b;
    if Free(a, x) {
      var j: nat :| j < |a| && In(a[j], x);
      assert In(c[j], x);
    }
    if Free(b, x) {
      var j: nat :| j < |b| && In(b[j], x);
      assert In(c[|a| + j], x);
    }
    if Free(c, x) {
      var j: nat :| j < |c| && In(c[j], x);
      assert if j < |a| then In(a[j], x) else In(b[j - |a|], x);
    }
  }

  lemma FreeOne(r: Run, x: int)
    ensures Free([r], x) <==> In(r, x)
  {
    assert Free([r], x) ==> In([r][0], x);
    assert In(r, x) ==> In([r][0], x);
  }

  lemma FreeAround(rs: seq<Run>, i: nat, x: int)
    requires i < |rs|
    ensures Free(rs, x) <==> Free(rs[..i], x) || In(rs[i], x) || Free(rs[i + 1..], x)
  {
    assert rs == rs[..i] + ([rs[i]] + rs[i + 1..]);
    FreeOf(rs[..i], [rs[i]] + rs[i + 1..], x);
    FreeOf([rs[i]], rs[i + 1..], x);
    FreeOne(rs[i], x);
  }

  lemma OnlyThere(rs: seq<Run>, i: nat, x: int)
    requires Canonical(rs) && i < |rs| && In(rs[i], x)
    ensures !Free(rs[..i], x) && !Free(rs[i + 1..], x)
  {
  }

  lemma CutFrees(rs: seq<Run>, i: nat, n: nat, x: int)
    requires Canonical(rs) && i < |rs| && 0 < n <= rs[i].len
    ensures Free(Cut(rs, i, n), x) <==> Free(rs, x) && !(rs[i].start <= x < rs[i].start + n)
  {
    FreeAround(rs, i, x);
    if In(rs[i], x) {
      OnlyThere(rs, i, x);
    }
    var cut := Cut(rs, i, n);
    if n < rs[i].len {
      FreeAround(cut, i, x);
      assert cut[..i] == rs[..i] && cut[i + 1..] == rs[i + 1..];
    } else {
      FreeOf(rs[..i], rs[i + 1..], x);
    }
  }

  // ---------- giving pages back ----------

  /** A gap between two runs. */
  ghost predicate Clear(a: Run, b: Run) {
    a.End() < b.start || b.End() < a.start
  }

  ghost predicate Disjoint(a: Run, b: Run) {
    a.End() <= b.start || b.End() <= a.start
  }

  /** The runs still in the list are canonical; the block touches none of those that
      have been looked at and overlaps none of the others. */
  ghost predicate ScanOrdered(rs: seq<Run>, i: nat, kept: seq<Run>, b: Run) {
    && i <= |rs| && b.len > 0 && Canonical(kept + rs[i..])
    && (forall k :: 0 <= k < |kept| ==> Clear(kept[k], b))
    && (forall k :: i <= k < |rs| ==> Disjoint(rs[k], b))
  }

  /** No page is lost or added. */
  ghost predicate ScanSame(rs: seq<Run>, given: Run, i: nat, kept: seq<Run>, b: Run)
    requires i <= |rs|
  {
    && Total(kept) + b.len + Total(rs[i..]) == Total(rs) + given.len
    && forall x: int {:trigger PageStays(rs, given, i, kept, b, x)} :: PageStays(rs, given, i, kept, b, x)
  }

  ghost predicate PageStays(rs: seq<Run>, given: Run, i: nat, kept: seq<Run>, b: Run, x: int)
    requires i <= |rs|
  {
    Free(kept, x) || In(b, x) || Free(rs[i..], x) <==> Free(rs, x) || In(given, x)
  }

  /** Where the scan of default_free_pages stands: of the runs rs, the first i have
      been looked at; kept holds those of them that are still in the list, and b is
      the block given back with the runs it has swallowed. */
  ghost predicate Scanning(rs: seq<Run>, given: Run, i: nat, kept: seq<Run>, b: Run) {
    ScanOrdered(rs, i, kept, b) && ScanSame(rs, given, i, kept, b)
  }

  /** What the block is after looking at run r. */
  function Swallow(b: Run, r: Run): Run {
    if b.End() == r.start then Run(b.start, b.len + r.len)
    else if r.End() == b.start then Run(r.start, r.len + b.len)
    else b
  }

  lemma ScanStep(rs: seq<Run>, given: Run, i: nat, kept: seq<Run>, b: Run)
    requires Scanning(rs, given, i, kept, b) && i < |rs|
    ensures var b' := Swallow(b, rs[i]); Scanning(rs, given, i + 1, if b' == b then kept + [rs[i]] else kept, b')
  {
    ScanStepOrdered(rs, i, kept, b);
    ScanStepSame(rs, given, i, kept, b);
  }

  lemma ScanStepOrdered(rs: seq<Run>, i: nat, kept: seq<Run>, b: Run)
    requires ScanOrdered(rs, i, kept, b) && i < |rs|
    ensures var b' := Swallow(b, rs[i]); ScanOrdered(rs, i + 1, if b' == b then kept + [rs[i]] else kept, b') && rs[i].len > 0
  {
    var r, b', rest := rs[i], Swallow(b, rs[i]), rs[i..];
    assert rest[0] == r && rest[1..] == rs[i + 1..];
    ScanOrder(kept, rest, b);
    assert b' == b ==> (kept + [r]) + rs[i + 1..] == kept + rest by {
      assert rest == [r] + rs[i + 1..];
    }
    forall k | i < k < |rs| ensures Disjoint(rs[k], b') {
      assert rest[k - i] == rs[k];
    }
  }

  lemma ScanStepSame(rs: seq<Run>, given: Run, i: nat, kept: seq<Run>, b: Run)
    requires i < |rs| && rs[i].len > 0 && b.len > 0 && ScanSame(rs, given, i, kept, b)
    ensures var b' := Swallow(b, rs[i]); ScanSame(rs, given, i + 1, if b' == b then kept + [rs[i]] else kept, b')
  {
    var r, b', next := rs[i], Swallow(b, rs[i]), i + 1;
    var kept', rest := if b' == b then kept + [r] else kept, rs[next..];
    assert rs[i..] == [r] + rest;
    ScanTotals(kept, r, rest, b);
    forall x: int ensures PageStays(rs, given, next, kept', b', x) {
      assert PageStays(rs, given, i, kept, b, x);
      ScanPages(kept, r, rest, b, x);
    }
  }

  /** Looking at run r neither adds nor loses a page. */
  lemma ScanTotals(kept: seq<Run>, r: Run, rest: seq<Run>, b: Run)
    ensures var b' := Swallow(b, r);
            Total(if b' == b then kept + [r] else kept) + b'.len + Total(rest) == Total(kept) + b.len + Total([r] + rest)
  {
    TotalOf([r], rest);
    TotalOf(kept, [r]);
  }

  lemma ScanPages(kept: seq<Run>, r: Run, rest: seq<Run>, b: Run, x: int)
    requires r.len > 0 && b.len > 0
    ensures var b' := Swallow(b, r);
            Free(if b' == b then kept + [r] else kept, x) || In(b', x) || Free(rest, x) <==> Free(kept, x) || In(b, x) || Free([r] + rest, x)
  {
    FreeOf([r], rest, x);
    FreeOf(kept, [r], x);
    FreeOne(r, x);
  }

  lemma ScanOrder(kept: seq<Run>, rest: seq<Run>, b: Run)
    requires Canonical(kept + rest) && |rest| > 0
    ensures rest[0].len > 0
    ensures forall k :: 0 <= k < |kept| ==> kept[k].End() < rest[0].start
    ensures forall k :: 0 < k < |rest| ==> rest[0].End() < rest[k].start
    ensures Canonical(kept + rest[1..])
  {
    var all := kept + rest;
    assert forall k :: 0 <= k < |rest| ==> rest[k] == all[|kept| + k];
    assert forall k :: 0 <= k < |kept| ==> kept[k] == all[k];
    var less := kept + rest[1..];
    forall i, j | 0 <= i < j < |less| ensures less[i].End() < less[j].start {
      assert less[i] == all[if i < |kept| then i else i + 1] && less[j] == all[if j < |kept| then j else j + 1];
    }
    forall i | 0 <= i < |less| ensures less[i].len > 0 {
      assert less[i] == all[if i < |kept| then i else i + 1];
    }
  }

  /** The block goes before the first run that starts after it. */
  ghost predicate Position(kept: seq<Run>, b: Run, t: nat) {
    && t <= |kept| && (forall k :: 0 <= k < t ==> kept[k].start < b.End())
    && (t < |kept| ==> b.End() <= kept[t].start)
  }

  lemma InsertOrder(kept: seq<Run>, b: Run, t: nat)
    requires Canonical(kept) && b.len > 0 && (forall k :: 0 <= k < |kept| ==> Clear(kept[k], b)) && Position(kept, b, t)
    ensures Canonical(kept[..t] + [b] + kept[t..]) && (t < |kept| ==> b.End() != kept[t].start)
  {
    var r := kept[..t] + [b] + kept[t..];
    forall i, j | 0 <= i < j < |r| ensures r[i].End() < r[j].start {
      if i == t {
        assert r[j] == kept[j - 1] && (j - 1 > t ==> kept[t].End() < kept[j - 1].start);
      } else if j == t {
        assert r[i] == kept[i];
      } else {
        assert r[i] == kept[if i < t then i else i - 1] && r[j] == kept[if j < t then j else j - 1];
      }
    }
  }

  lemma InsertPages(kept: seq<Run>, b: Run, t: nat)
    requires t <= |kept|
    ensures var r := kept[..t] + [b] + kept[t..];
            Total(r) == Total(kept) + b.len && forall x: int :: Free(r, x) <==> Free(kept, x) || In(b, x)
  {
    var r := kept[..t] + [b] + kept[t..];
    assert kept == kept[..t] + kept[t..] && r[..t] == kept[..t] && r[t + 1..] == kept[t..];
    TotalAround(r, t);
    TotalOf(kept[..t], kept[t..]);
    forall x: int ensures Free(r, x) <==> Free(kept, x) || In(b, x) {
      FreeAround(r, t, x);
      FreeOf(kept[..t], kept[t..], x);
    }
  }

  lemma InsertKeepsCanonical(rs: seq<Run>, given: Run, kept: seq<Run>, b: Run, t: nat)
    requires Scanning(rs, given, |rs|, kept, b) && Position(kept, b, t)
    ensures var r := kept[..t] + [b] + kept[t..];
            && Canonical(r) && Total(r) == Total(rs) + given.len
            && forall x: int :: Free(r, x) <==> Free(rs, x) || In(given, x)
    ensures t < |kept| ==> b.End() != kept[t].start
  {
    assert kept + rs[|rs|..] == kept;
    InsertOrder(kept, b, t);
    InsertPages(kept, b, t);
    var r := kept[..t] + [b] + kept[t..];
    forall x: int ensures Free(r, x) <==> Free(rs, x) || In(given, x) {
      assert PageStays(rs, given, |rs|, kept, b, x);
    }
  }
}
