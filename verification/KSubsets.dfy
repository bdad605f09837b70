/** Enumerating the subsets of a given size. */
module KSubsets {

  datatype Result<+T> = Ok(value: T) | ValueError

  function Range(n: nat): (r: set<nat>)
    ensures forall i :: i in r <==> 0 <= i < n
  {
    if n == 0 then {} else Range(n - 1) + {n - 1}
  }

  function AddToEach(ss: seq<set<nat>>, x: nat): (r: seq<set<nat>>)
    ensures |r| == |ss| && forall i | 0 <= i < |ss| :: r[i] == ss[i] + {x}
  {
    if ss == [] then [] else AddToEach(ss[..|ss| - 1], x) + [ss[|ss| - 1] + {x}]
  }

  /** What the generator yields, in order. */
  function Yields(n: nat, k: nat): seq<set<nat>> {
    if k == 0 || n < k then [{}]
    else if n == k then [Range(n)]
    else AddToEach(Yields(n - 1, k - 1), n - 1) + Yields(n - 1, k)
  }

  function KSubsetsI(n: int, k: int): Result<seq<set<nat>>> {
    if n < 0 || k < 0 then ValueError else Ok(Yields(n, k))
  }

  /** Binomial coefficient, by Pascal's rule. */
  function Choose(n: nat, k: nat): nat {
    if k == 0 then 1 else if n == 0 then 0 else Choose(n - 1, k - 1) + Choose(n - 1, k)
  }

  ghost predicate IsKSubset(s: set<nat>, n: nat, k: nat) {
    |s| == k && forall x | x in s :: x < n
  }

  lemma {:induction false} ChooseTooMany(n: nat, k: nat)
    requires n < k
    ensures Choose(n, k) == 0
  {
    if n > 0 {
      ChooseTooMany(n - 1, k - 1);
      ChooseTooMany(n - 1, k);
    }
  }

  lemma {:induction false} ChooseAll(n: nat)
    ensures Choose(n, n) == 1
  {
    if n > 0 {
      ChooseAll(n - 1);
      ChooseTooMany(n - 1, n);
    }
  }

  lemma {:induction false} RangeSize(n: nat)
    ensures |Range(n)| == n
  {
    if n > 0 {
      RangeSize(n - 1);
      var before := Range(n - 1);
      assert n - 1 !in before && Range(n) == before + {n - 1};
    }
  }

  lemma SubsetOfSameSize(s: set<nat>, t: set<nat>)
    requires s <= t && |s| == |t|
    ensures s == t
  {
    assert t == s + (t - s);
  }

  lemma YieldsOne(n: nat, k: nat)
    requires k == 0 || n <= k
    ensures |Yields(n, k)| == 1
  {
  }

  lemma YieldLength(n: nat, k: nat)
    requires 0 < k < n
    ensures |Yields(n, k)| == |Yields(n - 1, k - 1)| + |Yields(n - 1, k)|
  {
  }

  /** C(n, k) sets are yielded, one empty set too many when k is out of range. */
  lemma {:induction false} YieldCount(n: nat, k: nat)
    ensures |Yields(n, k)| == if n < k then 1 else Choose(n, k)
  {
    hide Yields;
    if k == 0 || n <= k {
      YieldsOne(n, k);
      ChooseAll(n);
    } else {
      YieldLength(n, k);
      YieldCount(n - 1, k - 1);
      YieldCount(n - 1, k);
    }
  }

  /** The recursive case: first the sets that hold n - 1, then those that do not. */
  lemma YieldAt(n: nat, k: nat, i: nat)
    requires 0 < k < n && i < |Yields(n, k)|
    ensures |Yields(n, k)| == |Yields(n - 1, k - 1)| + |Yields(n - 1, k)|
    ensures var first := Yields(n - 1, k - 1);
      Yields(n, k)[i] == if i < |first| then first[i] + {n - 1} else Yields(n - 1, k)[i - |first|]
  {
  }

  /** The two base cases yield the one subset there is. */
  lemma BaseYield(n: nat, k: nat)
    requires k == 0 || k == n
    ensures |Yields(n, k)| == 1 && |Yields(n, k)[0]| == k
    ensures forall x | x in Yields(n, k)[0] :: x < n
  {
    hide Range;
    RangeSize(n);
  }

  lemma BaseYieldIsAll(n: nat, k: nat, s: set<nat>)
    requires (k == 0 || k == n) && IsKSubset(s, n, k)
    ensures Yields(n, k)[0] == s
  {
    hide Range;
    RangeSize(n);
    if k > 0 {
      SubsetOfSameSize(s, Range(n));
    }
  }

  /** Every yielded set is a k-element subset of 0 .. n - 1. */
  lemma {:induction false} YieldsOnlySubsets(n: nat, k: nat, i: nat)
    requires k <= n && i < |Yields(n, k)|
    ensures IsKSubset(Yields(n, k)[i], n, k)
  {
    hide Yields;
    if 0 < k < n {
      YieldAt(n, k, i);
      var first := Yields(n - 1, k - 1);
      if i < |first| {
        YieldsOnlySubsets(n - 1, k - 1, i);
        assert n - 1 !in first[i];
      } else {
        YieldsOnlySubsets(n - 1, k, i - |first|);
      }
    } else {
      BaseYield(n, k);
    }
  }

  /** Every k-element subset of 0 .. n - 1 is yielded. */
  lemma {:induction false} YieldsEverySubset(n: nat, k: nat, s: set<nat>) returns (i: nat)
    requires k <= n && IsKSubset(s, n, k)
    ensures i < |Yields(n, k)| && Yields(n, k)[i] == s
  {
    hide Yields;
    if 0 < k < n {
      YieldLength(n, k);
      if n - 1 in s {
        i := YieldsEverySubset(n - 1, k - 1, s - {n - 1});
        YieldAt(n, k, i);
        assert s == s - {n - 1} + {n - 1};
      } else {
        i := YieldsEverySubset(n - 1, k, s);
        i := i + |Yields(n - 1, k - 1)|;
        YieldAt(n, k, i);
      }
    } else {
      i := 0;
      BaseYield(n, k);
      BaseYieldIsAll(n, k, s);
    }
  }

  /** No set is yielded twice, and there are C(n, k) of them. */
  lemma EachSubsetOnce(n: nat, k: nat, ss: seq<set<nat>>)
    requires k <= n && KSubsetsI(n, k) == Ok(ss)
    ensures |ss| == Choose(n, k) && forall i, j | 0 <= i < j < |ss| :: ss[i] != ss[j]
  {
    hide Yields;
    YieldCount(n, k);
    forall i, j | 0 <= i < j < |ss| ensures ss[i] != ss[j] {
      YieldsNoSetTwice(n, k, i, j);
    }
  }

  lemma {:induction false} YieldsNoSetTwice(n: nat, k: nat, i: nat, j: nat)
    requires k <= n && i < j < |Yields(n, k)|
    ensures Yields(n, k)[i] != Yields(n, k)[j]
  {
    hide Yields;
    if 0 < k < n {
      YieldAt(n, k, i);
      YieldAt(n, k, j);
      var first := Yields(n - 1, k - 1);
      if j < |first| {
        YieldsNoSetTwice(n - 1, k - 1, i, j);
        WithoutLast(n, k, i);
        WithoutLast(n, k, j);
      } else if i < |first| {
        YieldsOnlySubsets(n - 1, k, j - |first|);
        assert n - 1 in Yields(n, k)[i];
      } else {
        YieldsNoSetTwice(n - 1, k, i - |first|, j - |first|);
      }
    } else {
      BaseYield(n, k);
    }
  }

  lemma WithoutLast(n: nat, k: nat, i: nat)
    requires 0 < k < n && i < |Yields(n - 1, k - 1)|
    ensures Yields(n - 1, k - 1)[i] == Yields(n - 1, k - 1)[i] + {n - 1} - {n - 1}
  {
    hide Yields;
    YieldsOnlySubsets(n - 1, k - 1, i);
  }

  /** The sets that come out, in any order, are all the k-element subsets of 0 .. n - 1. */
  ghost predicate YieldsAllSubsets(r: Result<seq<set<nat>>>, n: nat, k: nat) {
    r.Ok? && forall s :: s in r.value <==> IsKSubset(s, n, k)
  }

  /** Right exactly when 0 <= k <= n: negative numbers are refused, and too large a k yields an empty set. */
  lemma ExactIff(n: int, k: int)
    ensures (n >= 0 && k >= 0 && YieldsAllSubsets(KSubsetsI(n, k), n, k)) <==> 0 <= k <= n
    ensures KSubsetsI(n, k).ValueError? <==> n < 0 || k < 0
  {
    hide Yields;
    if n >= 0 && k >= 0 {
      YieldsExactlyIff(n, k);
    }
  }

  lemma YieldsExactlyIff(n: nat, k: nat)
    ensures (forall s :: s in Yields(n, k) <==> IsKSubset(s, n, k)) <==> k <= n
  {
    if k <= n {
      forall s ensures s in Yields(n, k) <==> IsKSubset(s, n, k) {
        if s in Yields(n, k) {
          var i :| 0 <= i < |Yields(n, k)| && Yields(n, k)[i] == s;
          YieldsOnlySubsets(n, k, i);
        }
        if IsKSubset(s, n, k) {
          var i := YieldsEverySubset(n, k, s);
        }
      }
    } else {
      var none: set<nat> := {};
      assert none in Yields(n, k) && |none| == 0;
      assert !IsKSubset(none, n, k);
    }
  }
}
