/** Counting the positions of a sequence that satisfy a predicate, and how a
    single update changes the count. */
module Counting {

  function Indicator(b: bool): nat {
    if b then 1 else 0
  }

  ghost function CountIf<T>(s: seq<T>, f: T -> bool): nat {
    if s == [] then 0 else Indicator(f(s[0])) + CountIf(s[1..], f)
  }

  lemma {:induction false} CountIfUpdate<T>(s: seq<T>, i: nat, v: T, f: T -> bool)
    requires i < |s|
    ensures CountIf(s[i := v], f) == CountIf(s, f) - Indicator(f(s[i])) + Indicator(f(v))
  {
    if i == 0 {
      assert s[0 := v][1..] == s[1..];
    } else {
      assert s[i := v][1..] == s[1..][i - 1 := v];
      CountIfUpdate(s[1..], i - 1, v, f);
    }
  }

  lemma {:induction false} CountIfAtLeastOne<T>(s: seq<T>, i: nat, f: T -> bool)
    requires i < |s| && f(s[i])
    ensures CountIf(s, f) >= 1
  {
    if i > 0 {
      CountIfAtLeastOne(s[1..], i - 1, f);
    }
  }

  lemma {:induction false} CountIfAtLeastTwo<T>(s: seq<T>, i: nat, j: nat, f: T -> bool)
    requires i < j < |s| && f(s[i]) && f(s[j])
    ensures CountIf(s, f) >= 2
  {
    if i == 0 {
      CountIfAtLeastOne(s[1..], j - 1, f);
    } else {
      CountIfAtLeastTwo(s[1..], i - 1, j - 1, f);
    }
  }

  lemma {:induction false} CountIfWitness<T>(s: seq<T>, f: T -> bool) returns (i: nat)
    requires CountIf(s, f) > 0
    ensures i < |s| && f(s[i])
  {
    if f(s[0]) {
      i := 0;
    } else {
      var k := CountIfWitness(s[1..], f);
      i := k + 1;
    }
  }

  lemma {:induction false} CountIfZero<T>(s: seq<T>, f: T -> bool)
    requires forall i :: 0 <= i < |s| ==> !f(s[i])
    ensures CountIf(s, f) == 0
  {
    if s != [] {
      CountIfZero(s[1..], f);
    }
  }

  lemma {:induction false} CountIfNone<T>(s: seq<T>, f: T -> bool)
    requires CountIf(s, f) == 0
    ensures forall i :: 0 <= i < |s| ==> !f(s[i])
  {
    if s != [] {
      CountIfNone(s[1..], f);
      forall i | 0 <= i < |s| ensures !f(s[i]) {
        assert i > 0 ==> s[i] == s[1..][i - 1];
      }
    }
  }

  ghost function Sum(s: seq<int>): int {
    if s == [] then 0 else s[0] + Sum(s[1..])
  }

  lemma {:induction false} SumUpdate(s: seq<int>, i: nat, v: int)
    requires i < |s|
    ensures Sum(s[i := v]) == Sum(s) - s[i] + v
  {
    if i == 0 {
      assert s[0 := v][1..] == s[1..];
    } else {
      assert s[i := v][1..] == s[1..][i - 1 := v];
      SumUpdate(s[1..], i - 1, v);
    }
  }

  lemma {:induction false} SumNonNegative(s: seq<int>)
    requires forall k :: 0 <= k < |s| ==> s[k] >= 0
    ensures Sum(s) >= 0
    ensures forall k :: 0 <= k < |s| ==> s[k] <= Sum(s)
  {
    if s != [] {
      SumNonNegative(s[1..]);
      forall k | 0 <= k < |s| ensures s[k] <= Sum(s) {
        if k > 0 {
          assert s[k] == s[1..][k - 1];
        }
      }
    }
  }
}
