/** The round table of kern/sync/check_sync.c: who sits next to whom. */
module Table {

  datatype Phase = Thinking | Hungry | Eating

  function Left(i: nat, n: nat): (r: nat)
    requires i < n
    ensures r < n && r == if i == 0 then n - 1 else i - 1
  {
    ModStep(i, n);
    (i - 1 + n) % n
  }

  function Right(i: nat, n: nat): (r: nat)
    requires i < n
    ensures r < n && r == if i == n - 1 then 0 else i + 1
  {
    ModStep(i, n);
    (i + 1) % n
  }

  lemma QuotientIs(x: nat, n: nat, q: nat, r: nat)
    requires 0 < n && r < n && x == q * n + r
    ensures x % n == r
  {
    var d := q - x / n;
    assert d * n == x % n - r;
    assert d > 0 ==> d * n >= n;
    assert d < 0 ==> d * n <= -1 * n;
  }

  lemma ModStep(i: nat, n: nat)
    requires i < n
    ensures (i - 1 + n) % n == if i == 0 then n - 1 else i - 1
    ensures (i + 1) % n == if i == n - 1 then 0 else i + 1
  {
    if i == 0 {
      QuotientIs(n - 1, n, 0, n - 1);
    } else {
      QuotientIs(i - 1 + n, n, 1, i - 1);
    }
    if i == n - 1 {
      QuotientIs(n, n, 1, 0);
    } else {
      QuotientIs(i + 1, n, 0, i + 1);
    }
  }

  /** Nobody eats next to somebody who eats. */
  ghost predicate NoNeighboursEat(st: seq<Phase>) {
    forall i :: 0 <= i < |st| && st[i].Eating? ==> !st[Right(i, |st|)].Eating?
  }

  ghost predicate EatingNeighbour(st: seq<Phase>, j: nat)
    requires j < |st|
  {
    st[Left(j, |st|)].Eating? || st[Right(j, |st|)].Eating?
  }

  /** The guard of phi_test. */
  ghost predicate MayEat(st: seq<Phase>, j: nat)
    requires j < |st|
  {
    st[j].Hungry? && !EatingNeighbour(st, j)
  }

  ghost function AfterTest(st: seq<Phase>, j: nat): seq<Phase>
    requires j < |st|
  {
    if MayEat(st, j) then st[j := Eating] else st
  }

  lemma TestKeepsDistance(st: seq<Phase>, j: nat)
    requires |st| >= 2 && j < |st| && NoNeighboursEat(st)
    ensures NoNeighboursEat(AfterTest(st, j))
    ensures AfterTest(st, j)[j].Hungry? ==> EatingNeighbour(AfterTest(st, j), j)
  {
    var st' := AfterTest(st, j);
    forall i | 0 <= i < |st'| && st'[i].Eating? ensures !st'[Right(i, |st'|)].Eating? {
      assert Left(Right(i, |st|), |st|) == i;
    }
  }

  /** Leaving the table, or sitting down hungry, disturbs nobody's distance. */
  lemma StopEatingKeepsDistance(st: seq<Phase>, i: nat, x: Phase)
    requires i < |st| && NoNeighboursEat(st) && !x.Eating?
    ensures NoNeighboursEat(st[i := x])
  {
  }
}
