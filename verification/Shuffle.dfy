/**
 The Fisher-Yates shuffle of `random_unique_indices` in `src/qkd/mod.rs`, as a function of its
 swap choices, and the proof that choices and permutations correspond one to one.
 */
module Shuffle {

  /** `cs[k]` is the choice for position `n - 1 - k`: any position up to and including it. */
  predicate ValidChoices(n: nat, cs: seq<nat>) {
    && |cs| == (if n == 0 then 0 else n - 1)
    && forall k :: 0 <= k < |cs| ==> cs[k] <= n - 1 - k
  }

  function Swap(a: seq<nat>, i: nat, j: nat): (b: seq<nat>)
    requires i < |a| && j < |a|
    ensures |b| == |a|
  {
    a[i := a[j]][j := a[i]]
  }

  lemma SwapPermutes(a: seq<nat>, i: nat, j: nat)
    requires i < |a| && j < |a|
    ensures multiset(Swap(a, i, j)) == multiset(a)
  {
  }

  function Shuffled(a: seq<nat>, cs: seq<nat>): (t: seq<nat>)
    requires ValidChoices(|a|, cs)
    ensures |t| == |a|
    decreases |a|
  {
    if |a| <= 1 then a
    else
      var i := |a| - 1;
      var b := Swap(a, i, cs[0]);
      Shuffled(b[..i], cs[1..]) + [b[i]]
  }

  predicate Distinct(a: seq<nat>) {
    forall i, j :: 0 <= i < j < |a| ==> a[i] != a[j]
  }

  lemma SplitLast(a: seq<nat>)
    requires a != []
    ensures multiset(a) == multiset(a[..|a| - 1]) + multiset{a[|a| - 1]}
  {
    assert a == a[..|a| - 1] + [a[|a| - 1]];
  }

  lemma {:induction false} ShuffledPermutes(a: seq<nat>, cs: seq<nat>)
    requires ValidChoices(|a|, cs)
    ensures multiset(Shuffled(a, cs)) == multiset(a)
    decreases |a|
  {
    if |a| > 1 {
      var i := |a| - 1;
      var b := Swap(a, i, cs[0]);
      ShuffledPermutes(b[..i], cs[1..]);
      SwapPermutes(a, i, cs[0]);
      SplitLast(b);
    }
  }

  /** Different choices never give the same order. */
  lemma {:induction false} ShuffledInjective(a: seq<nat>, cs: seq<nat>, cs': seq<nat>)
    requires ValidChoices(|a|, cs) && ValidChoices(|a|, cs') && Distinct(a)
    requires Shuffled(a, cs) == Shuffled(a, cs')
    ensures cs == cs'
    decreases |a|
  {
    if |a| > 1 {
      var i := |a| - 1;
      var b, b' := Swap(a, i, cs[0]), Swap(a, i, cs'[0]);
      assert Shuffled(a, cs)[i] == b[i] == a[cs[0]] && Shuffled(a, cs')[i] == b'[i] == a[cs'[0]];
      assert cs[0] == cs'[0];
      assert Shuffled(b[..i], cs[1..]) == Shuffled(a, cs)[..i] == Shuffled(a, cs')[..i];
      ShuffledInjective(b[..i], cs[1..], cs'[1..]);
      assert cs == [cs[0]] + cs[1..] && cs' == [cs'[0]] + cs'[1..];
    }
  }

  lemma Cancel(m: multiset<nat>, n: multiset<nat>, x: nat)
    requires m + multiset{x} == n + multiset{x}
    ensures m == n
  {
    assert m == (m + multiset{x}) - multiset{x};
    assert n == (n + multiset{x}) - multiset{x};
  }

  /** Putting the wanted last element in place leaves the rest a permutation of the wanted rest. */
  lemma SwapLast(a: seq<nat>, t: seq<nat>, j: nat)
    requires |a| == |t| && j < |a| && multiset(a) == multiset(t) && a[j] == t[|a| - 1]
    ensures multiset(Swap(a, |a| - 1, j)[..|a| - 1]) == multiset(t[..|a| - 1])
  {
    var i, b := |a| - 1, Swap(a, |a| - 1, j);
    SwapPermutes(a, i, j);
    SplitLast(b);
    SplitLast(t);
    Cancel(multiset(b[..i]), multiset(t[..i]), t[i]);
  }

  lemma SameSize(a: seq<nat>, t: seq<nat>)
    requires multiset(a) == multiset(t)
    ensures |a| == |t| && (|a| == 1 ==> a == t)
  {
    assert |a| == |multiset(a)| == |multiset(t)| == |t|;
    if |a| == 1 {
      assert a[0] in multiset(t);
    }
  }

  lemma Locate(a: seq<nat>, x: nat) returns (j: nat)
    requires x in multiset(a)
    ensures j < |a| && a[j] == x
  {
    j :| 0 <= j < |a| && a[j] == x;
  }

  lemma ShuffledStep(a: seq<nat>, j: nat, rest: seq<nat>)
    requires 1 < |a| && j < |a| && ValidChoices(|a| - 1, rest)
    ensures ValidChoices(|a|, [j] + rest)
    ensures Shuffled(a, [j] + rest) == Shuffled(Swap(a, |a| - 1, j)[..|a| - 1], rest) + [a[j]]
  {
    assert ([j] + rest)[1..] == rest;
  }

  /** Every order of `a` has choices that produce it: choose each element's place from the last on. */
  lemma {:induction false} ShuffledSurjective(a: seq<nat>, t: seq<nat>) returns (cs: seq<nat>)
    requires multiset(a) == multiset(t)
    ensures ValidChoices(|a|, cs) && Shuffled(a, cs) == t
    decreases |a|
  {
    SameSize(a, t);
    if |a| <= 1 {
      cs := [];
    } else {
      var i := |a| - 1;
      var j := Locate(a, t[i]);
      var b := Swap(a, i, j);
      SwapLast(a, t, j);
      var rest := ShuffledSurjective(b[..i], t[..i]);
      cs := [j] + rest;
      ShuffledStep(a, j, rest);
      assert t == t[..i] + [t[i]];
    }
  }

  function Iota(n: nat): (a: seq<nat>)
    ensures |a| == n && Distinct(a)
  {
    seq(n, i requires 0 <= i < n => i)
  }

  /**
   The shuffle is a bijection: every permutation of 0..n comes from exactly one sequence of
   choices, so independent uniform choices give every permutation the same chance.
   */
  lemma ShuffleIsBijection(n: nat, t: seq<nat>)
    requires multiset(t) == multiset(Iota(n))
    ensures exists cs :: ValidChoices(n, cs) && Shuffled(Iota(n), cs) == t
    ensures forall cs, cs' ::
      (ValidChoices(n, cs) && ValidChoices(n, cs') && Shuffled(Iota(n), cs) == t == Shuffled(Iota(n), cs'))
      ==> cs == cs'
  {
    var cs := ShuffledSurjective(Iota(n), t);
    assert ValidChoices(n, cs) && Shuffled(Iota(n), cs) == t;
    forall c, c' | ValidChoices(n, c) && Shuffled(Iota(n), c) == t
                && ValidChoices(n, c') && Shuffled(Iota(n), c') == t
      ensures c == c'
    {
      ShuffledInjective(Iota(n), c, c');
    }
  }

  /** A permutation of 0..n lists different indices, all in range. */
  lemma PermutationOfIota(n: nat, t: seq<nat>)
    requires multiset(t) == multiset(Iota(n))
    ensures |t| == n && Distinct(t) && forall i :: 0 <= i < |t| ==> t[i] < n
  {
    assert |multiset(t)| == |t| && |multiset(Iota(n))| == n;
    forall i | 0 <= i < |t|
      ensures t[i] < n
    {
      assert t[i] in multiset(t);
      assert t[i] in Iota(n);
    }
    forall i, j | 0 <= i < j < |t|
      ensures t[i] != t[j]
    {
      if t[i] == t[j] {
        TwoOccurrences(t, i, j);
        OneOccurrence(Iota(n), t[i]);
      }
    }
  }

  lemma TwoOccurrences(t: seq<nat>, i: nat, j: nat)
    requires i < j < |t| && t[i] == t[j]
    ensures multiset(t)[t[i]] >= 2
  {
    assert t == t[..j] + [t[j]] + t[j + 1..];
    assert t[i] in t[..j];
  }

  lemma {:induction false} OneOccurrence(a: seq<nat>, x: nat)
    requires Distinct(a)
    ensures multiset(a)[x] <= 1
  {
    if a != [] {
      SplitLast(a);
      OneOccurrence(a[..|a| - 1], x);
      if x == a[|a| - 1] {
        assert x !in a[..|a| - 1];
      }
    }
  }
}
