/**
 Weighted, health-aware signing across providers, `abir_guard/hsm_cluster.py`.

 `sign` returns the position of the provider it delegates to.  Providers are asked for their health
 up to twice during a call, once for the preferred region and once for the failover, and may answer
 differently: both lists of answers are arguments.  Records compare by their fields.
 */
module HsmCluster {
  import PrimeField

  datatype Option<T> = None | Some(value: T)

  /** `device` tells backends apart. */
  datatype Provider = Provider(id: string, region: string, weight: int, device: nat)

  function Share(weight: int): nat {
    if weight < 1 then 1 else weight
  }

  // ----- The weighted cycle -----

  function Repeat(i: nat, n: nat): (s: seq<nat>)
    ensures |s| == n
  {
    if n == 0 then [] else Repeat(i, n - 1) + [i]
  }

  function WeightedIds(providers: seq<Provider>): (ids: seq<nat>)
    ensures |ids| >= |providers|
    ensures forall k :: 0 <= k < |ids| ==> ids[k] < |providers|
  {
    if providers == [] then []
    else
      var n := |providers| - 1;
      RepeatIsConstant(n, Share(providers[n].weight));
      WeightedIds(providers[..n]) + Repeat(n, Share(providers[n].weight))
  }

  lemma {:induction false} RepeatIsConstant(i: nat, n: nat)
    ensures forall k :: 0 <= k < n ==> Repeat(i, n)[k] == i
    ensures multiset(Repeat(i, n)) == multiset{}[i := n]
  {
    if n > 0 {
      RepeatIsConstant(i, n - 1);
    }
  }

  lemma AppendedCount(before: seq<nat>, n: nat, times: nat, i: nat)
    requires forall k :: 0 <= k < |before| ==> before[k] < n
    ensures multiset(before + Repeat(n, times))[i] == if i == n then times else multiset(before)[i]
  {
    RepeatIsConstant(n, times);
    assert n !in before;
  }

  /** Each provider appears in the cycle as often as its weight says, and at least once. */
  lemma {:induction false} WeightedIdsCount(providers: seq<Provider>, i: nat)
    requires i < |providers|
    ensures multiset(WeightedIds(providers))[i] == Share(providers[i].weight)
  {
    var n := |providers| - 1;
    var before, times := WeightedIds(providers[..n]), Share(providers[n].weight);
    assert WeightedIds(providers) == before + Repeat(n, times);
    AppendedCount(before, n, times, i);
    if i < n {
      WeightedIdsCount(providers[..n], i);
    }
  }

  /** The cycle lists the providers in their order, each one's repetitions together. */
  lemma {:induction false} CycleInOrder(providers: seq<Provider>)
    ensures forall i, j :: 0 <= i < j < |WeightedIds(providers)| ==> WeightedIds(providers)[i] <= WeightedIds(providers)[j]
  {
    if providers != [] {
      var n := |providers| - 1;
      CycleInOrder(providers[..n]);
      RepeatIsConstant(n, Share(providers[n].weight));
    }
  }

  /** The sum of the weights, each counted as at least 1. */
  function TotalWeight(providers: seq<Provider>): nat {
    if providers == [] then 0
    else TotalWeight(providers[..|providers| - 1]) + Share(providers[|providers| - 1].weight)
  }

  lemma {:induction false} CycleLength(providers: seq<Provider>)
    ensures |WeightedIds(providers)| == TotalWeight(providers)
  {
    if providers != [] {
      CycleLength(providers[..|providers| - 1]);
    }
  }

  /** The next position of the cycle. */
  function Step(size: nat, pos: nat): (next: nat)
    requires pos < size
    ensures next < size
  {
    if pos + 1 == size then 0 else pos + 1
  }

  function Advance(size: nat, pos: nat, n: nat): (next: nat)
    requires pos < size
    ensures next < size
    decreases n
  {
    if n == 0 then pos else Advance(size, Step(size, pos), n - 1)
  }

  // ----- Selection -----

  predicate InPool(providers: seq<Provider>, region: Option<string>, i: nat)
    requires i < |providers|
  {
    || region.None?
    || providers[i].region == region.value
    || forall k :: 0 <= k < |providers| ==> providers[k].region != region.value
  }

  /**
   The healthy list of a call, by position: candidates of the region that answered the first time,
   or, when none did, all that answered the second time.
   */
  function Approved(providers: seq<Provider>, first: seq<bool>, second: seq<bool>, region: Option<string>)
    : (approved: seq<bool>)
    requires |first| == |second| == |providers|
    ensures |approved| == |providers|
  {
    if exists i :: 0 <= i < |providers| && InPool(providers, region, i) && first[i] then
      seq(|providers|, i requires 0 <= i < |providers| => InPool(providers, region, i) && first[i])
    else second
  }

  /** Providers whose record equals one on the healthy list. */
  function Eligible(providers: seq<Provider>, approved: seq<bool>): (eligible: seq<bool>)
    requires |approved| == |providers|
    ensures |eligible| == |providers|
  {
    seq(|providers|, i requires 0 <= i < |providers| => Listed(providers, approved, i))
  }

  predicate Listed(providers: seq<Provider>, approved: seq<bool>, i: nat)
    requires i < |providers| == |approved|
  {
    exists k :: 0 <= k < |providers| && approved[k] && providers[k] == providers[i]
  }

  /** How many entries of the cycle are skipped before an eligible one, within `tries`. */
  function Skipped(ids: seq<nat>, pos: nat, eligible: seq<bool>, tries: nat): (skipped: Option<nat>)
    requires pos < |ids| && forall k :: 0 <= k < |ids| ==> ids[k] < |eligible|
    decreases tries
  {
    if tries == 0 then None
    else if eligible[ids[pos]] then Some(0)
    else
      match Skipped(ids, Step(|ids|, pos), eligible, tries - 1)
      case None => None
      case Some(k) => Some(k + 1)
  }

  function FirstTrue(flags: seq<bool>): (i: nat)
    ensures true in flags ==> i < |flags| && flags[i]
  {
    if flags == [] || flags[0] then 0 else 1 + FirstTrue(flags[1..])
  }

  /** The provider a call uses, and the position of the cycle after it. */
  function Chosen(providers: seq<Provider>, pos: nat, first: seq<bool>, second: seq<bool>, region: Option<string>)
    : (r: (Option<nat>, nat))
    requires |first| == |second| == |providers| && pos < |WeightedIds(providers)|
    ensures r.1 < |WeightedIds(providers)|
  {
    var ids, approved := WeightedIds(providers), Approved(providers, first, second, region);
    if true !in approved then (None, pos)
    else
      match Skipped(ids, pos, Eligible(providers, approved), 2 * |providers|)
      case Some(k) => (Some(ids[Advance(|ids|, pos, k)]), Advance(|ids|, pos, k + 1))
      case None => (Some(FirstTrue(approved)), Advance(|ids|, pos, 2 * |providers|))
  }

  class HsmCluster {
    const providers: seq<Provider>
    const ids: seq<nat>
    var pos: nat

    ghost predicate Valid()
      reads this
    {
      providers != [] && ids == WeightedIds(providers) && pos < |ids|
    }

    /** Construction is refused for an empty list. */
    static method New(providers: seq<Provider>) returns (r: HsmCluster?)
      ensures r == null <==> providers == []
      ensures r != null ==> fresh(r) && r.Valid() && r.providers == providers && r.pos == 0
    {
      if providers == [] {
        return null;
      }
      r := new HsmCluster(providers);
    }

    constructor (providers: seq<Provider>)
      requires providers != []
      ensures Valid() && this.providers == providers && pos == 0
    {
      var weighted: seq<nat> := [];
      for idx := 0 to |providers|
        invariant weighted == WeightedIds(providers[..idx])
      {
        assert providers[..idx + 1][..idx] == providers[..idx];
        weighted := weighted + Repeat(idx, Share(providers[idx].weight));
      }
      assert providers[..|providers|] == providers;
      this.providers, ids, pos := providers, weighted, 0;
    }

    method Sign(first: seq<bool>, second: seq<bool>, region: Option<string>) returns (r: Option<nat>)
      requires Valid() && |first| == |second| == |providers|
      modifies this`pos
      ensures Valid()
      ensures (r, pos) == Chosen(providers, old(pos), first, second, region)
    {
      hide Approved, Eligible, Listed, WeightedIds;
      var approved := Approved(providers, first, second, region);
      if true !in approved {
        return None;
      }
      var eligible := Eligible(providers, approved);
      ghost var start, tries := pos, 2 * |providers|;
      for k := 0 to 2 * |providers|
        invariant pos < |ids| && pos == Advance(|ids|, start, k)
        invariant Skipped(ids, start, eligible, tries) == Later(k, Skipped(ids, pos, eligible, tries - k))
      {
        var idx := ids[pos];
        AdvanceOne(|ids|, start, k);
        pos := Step(|ids|, pos);
        if eligible[idx] {
          return Some(idx);
        }
      }
      return Some(FirstTrue(approved));
    }
  }

  function Later(k: nat, skipped: Option<nat>): Option<nat> {
    match skipped case None => None case Some(n) => Some(n + k)
  }

  lemma {:induction false} AdvanceOne(size: nat, pos: nat, k: nat)
    requires pos < size
    ensures Advance(size, pos, k + 1) == Step(size, Advance(size, pos, k))
    decreases k
  {
    if k > 0 {
      AdvanceOne(size, Step(size, pos), k - 1);
    }
  }

  // ----- What the selection guarantees -----

  lemma {:induction false} SkippedIsEligible(ids: seq<nat>, pos: nat, eligible: seq<bool>, tries: nat)
    requires pos < |ids| && forall k :: 0 <= k < |ids| ==> ids[k] < |eligible|
    ensures var skipped := Skipped(ids, pos, eligible, tries);
            skipped.Some? ==> eligible[ids[Advance(|ids|, pos, skipped.value)]]
    decreases tries
  {
    if tries > 0 && !eligible[ids[pos]] {
      SkippedIsEligible(ids, Step(|ids|, pos), eligible, tries - 1);
    }
  }

  lemma AddMod(pos: nat, n: nat, size: nat)
    requires pos < size
    ensures (Step(size, pos) + n) % size == (pos + 1 + n) % size
  {
    if pos + 1 == size {
      var q, r := n / size, n % size;
      assert size + n == size * (q + 1) + r;
      PrimeField.ModUnique(size + n, size, q + 1, r);
    }
  }

  /** Advancing goes round the cycle. */
  lemma {:induction false} AdvanceIsModular(size: nat, pos: nat, n: nat)
    requires pos < size
    ensures Advance(size, pos, n) == (pos + n) % size
    decreases n
  {
    if n > 0 {
      AdvanceIsModular(size, Step(size, pos), n - 1);
      AddMod(pos, n - 1, size);
    }
  }

  /** The entry `j` places further round the cycle. */
  function Turn(ids: seq<nat>, pos: nat, j: nat): (id: nat)
    requires ids != []
    ensures id in ids
  {
    ids[(pos + j) % |ids|]
  }

  lemma TurnNext(ids: seq<nat>, pos: nat, j: nat)
    requires pos < |ids|
    ensures Turn(ids, pos, 0) == ids[pos] && Turn(ids, Step(|ids|, pos), j) == Turn(ids, pos, j + 1)
  {
    PrimeField.ModUnique(pos, |ids|, 0, pos);
    AddMod(pos, j, |ids|);
  }

  /** None of the next `n` entries is eligible. */
  predicate NoneWithin(ids: seq<nat>, pos: nat, eligible: seq<bool>, n: nat)
    requires ids != [] && forall k :: 0 <= k < |ids| ==> ids[k] < |eligible|
  {
    forall j :: 0 <= j < n ==> !eligible[Turn(ids, pos, j)]
  }

  lemma NoneWithinNext(ids: seq<nat>, pos: nat, eligible: seq<bool>, n: nat)
    requires pos < |ids| && forall k :: 0 <= k < |ids| ==> ids[k] < |eligible|
    requires !eligible[ids[pos]] && NoneWithin(ids, Step(|ids|, pos), eligible, n)
    ensures NoneWithin(ids, pos, eligible, n + 1)
  {
    hide Turn;
    forall j | 0 <= j < n + 1
      ensures !eligible[Turn(ids, pos, j)]
    {
      if j == 0 {
        TurnNext(ids, pos, 0);
      } else {
        TurnNext(ids, pos, j - 1);
      }
    }
  }

  /** The search of the cycle finds the first eligible entry within its tries. */
  lemma {:induction false} SkippedIsFirst(ids: seq<nat>, pos: nat, eligible: seq<bool>, tries: nat)
    requires pos < |ids| && forall k :: 0 <= k < |ids| ==> ids[k] < |eligible|
    ensures var skipped := Skipped(ids, pos, eligible, tries);
            && (skipped.Some? ==> skipped.value < tries && eligible[Turn(ids, pos, skipped.value)])
            && NoneWithin(ids, pos, eligible, if skipped.Some? then skipped.value else tries)
    decreases tries
  {
    hide Turn, NoneWithin;
    if tries == 0 {
      NoneYet(ids, pos, eligible);
    } else if eligible[ids[pos]] {
      NoneYet(ids, pos, eligible);
      TurnNext(ids, pos, 0);
    } else {
      var next := Step(|ids|, pos);
      var skipped := Skipped(ids, next, eligible, tries - 1);
      SkippedIsFirst(ids, next, eligible, tries - 1);
      NoneWithinNext(ids, pos, eligible, if skipped.Some? then skipped.value else tries - 1);
      if skipped.Some? {
        TurnNext(ids, pos, skipped.value);
      }
    }
  }

  lemma NoneYet(ids: seq<nat>, pos: nat, eligible: seq<bool>)
    requires ids != [] && forall k :: 0 <= k < |ids| ==> ids[k] < |eligible|
    ensures NoneWithin(ids, pos, eligible, 0)
  {
  }

  /** Which positions are on the healthy list of a call, in the order of its tests. */
  lemma ApprovedSpelled(providers: seq<Provider>, first: seq<bool>, second: seq<bool>, region: Option<string>, i: nat)
    requires |first| == |second| == |providers| && i < |providers|
    ensures var regional := exists k :: 0 <= k < |providers| && region.Some? && providers[k].region == region.value;
            var answered := exists k :: 0 <= k < |providers| && first[k] && (regional ==> providers[k].region == region.value);
            Approved(providers, first, second, region)[i] <==>
              if answered then first[i] && (regional ==> providers[i].region == region.value) else second[i]
  {
    var regional := exists k :: 0 <= k < |providers| && region.Some? && providers[k].region == region.value;
    forall k | 0 <= k < |providers|
      ensures InPool(providers, region, k) <==> (regional ==> providers[k].region == region.value)
    {
    }
  }

  /**
   The provider a call uses is the first of the cycle, from its position on and within two tries for
   each provider, whose record equals one on the healthy list; failing that, the first on the list.
   The cycle stands after the last entry looked at.
   */
  lemma ChosenInOrder(providers: seq<Provider>, pos: nat, first: seq<bool>, second: seq<bool>, region: Option<string>)
    returns (k: nat)
    requires |first| == |second| == |providers| && pos < |WeightedIds(providers)|
    requires exists i :: 0 <= i < |providers| && Approved(providers, first, second, region)[i]
    ensures k <= 2 * |providers|
    ensures var ids, approved := WeightedIds(providers), Approved(providers, first, second, region);
            forall j :: 0 <= j < k ==> !Listed(providers, approved, Turn(ids, pos, j))
    ensures var ids, approved := WeightedIds(providers), Approved(providers, first, second, region);
            var (chosen, next) := Chosen(providers, pos, first, second, region);
            if k < 2 * |providers| then
              Listed(providers, approved, Turn(ids, pos, k))
              && chosen == Some(Turn(ids, pos, k)) && next == (pos + k + 1) % |ids|
            else
              && next == (pos + k) % |ids| && chosen.Some? && chosen.value < |approved| && approved[chosen.value]
              && forall i :: 0 <= i < chosen.value ==> !approved[i]
  {
    hide Approved, Listed, Skipped;
    var ids, approved := WeightedIds(providers), Approved(providers, first, second, region);
    var eligible, tries := Eligible(providers, approved), 2 * |providers|;
    assert true in approved;
    FirstTrueIsFirst(approved);
    SkippedIsFirst(ids, pos, eligible, tries);
    var skipped := Skipped(ids, pos, eligible, tries);
    k := if skipped.Some? then skipped.value else tries;
    AdvanceIsModular(|ids|, pos, k);
    AdvanceIsModular(|ids|, pos, k + 1);
    forall j | 0 <= j < k
      ensures !Listed(providers, approved, Turn(ids, pos, j))
    {
      assert !eligible[Turn(ids, pos, j)];
    }
  }

  /** With nobody on the list the call fails and the cycle does not move. */
  lemma NobodyChosen(providers: seq<Provider>, pos: nat, first: seq<bool>, second: seq<bool>, region: Option<string>)
    requires |first| == |second| == |providers| && pos < |WeightedIds(providers)|
    requires forall i :: 0 <= i < |providers| ==> !Approved(providers, first, second, region)[i]
    ensures Chosen(providers, pos, first, second, region) == (None, pos)
  {
  }

  lemma {:induction false} FirstTrueIsFirst(flags: seq<bool>)
    ensures true in flags ==> FirstTrue(flags) < |flags| && forall i :: 0 <= i < FirstTrue(flags) ==> !flags[i]
  {
    if flags != [] && !flags[0] {
      FirstTrueIsFirst(flags[1..]);
    }
  }

  /** Positions a first-pass answer counts for: the preferred region's, if it has any provider. */
  ghost predicate AnyApproved(providers: seq<Provider>, first: seq<bool>, second: seq<bool>, region: Option<string>)
    requires |first| == |second| == |providers|
  {
    || (exists i :: 0 <= i < |providers| && InPool(providers, region, i) && first[i])
    || (exists i :: 0 <= i < |providers| && second[i])
  }

  /** Provider `k` answered the pass that decides: the first, if any candidate answered it. */
  ghost predicate Answered(providers: seq<Provider>, first: seq<bool>, second: seq<bool>, region: Option<string>, k: nat)
    requires |first| == |second| == |providers| && k < |providers|
  {
    if exists i :: 0 <= i < |providers| && InPool(providers, region, i) && first[i]
    then InPool(providers, region, k) && first[k]
    else second[k]
  }

  ghost predicate RecordAnswered(providers: seq<Provider>, first: seq<bool>, second: seq<bool>, region: Option<string>,
                                 record: Provider)
    requires |first| == |second| == |providers|
  {
    exists k :: 0 <= k < |providers| && providers[k] == record && Answered(providers, first, second, region, k)
  }

  /**
   A call fails exactly when no candidate answers the first time and nobody the second; otherwise
   it uses a provider whose record answered when it counted, and one of the preferred region
   whenever one of that region answered the first time.
   */
  lemma ChosenIsHealthyAndNear(providers: seq<Provider>, pos: nat, first: seq<bool>, second: seq<bool>,
                               region: Option<string>)
    requires |first| == |second| == |providers| && pos < |WeightedIds(providers)|
    ensures var chosen := Chosen(providers, pos, first, second, region).0;
            && (chosen.None? <==> !AnyApproved(providers, first, second, region))
            && (chosen.Some? ==> chosen.value < |providers|)
            && (chosen.Some? ==> RecordAnswered(providers, first, second, region, providers[chosen.value]))
            && (chosen.Some? && region.Some?
                && (exists i :: 0 <= i < |providers| && providers[i].region == region.value && first[i])
                ==> providers[chosen.value].region == region.value)
  {
    var ids, approved := WeightedIds(providers), Approved(providers, first, second, region);
    var eligible := Eligible(providers, approved);
    SkippedIsEligible(ids, pos, eligible, 2 * |providers|);
    ApprovedIsHealthyAndNear(providers, first, second, region);
    var chosen := Chosen(providers, pos, first, second, region).0;
    if chosen.Some? {
      assert Listed(providers, approved, chosen.value);
    }
  }

  lemma ApprovedIsHealthyAndNear(providers: seq<Provider>, first: seq<bool>, second: seq<bool>, region: Option<string>)
    requires |first| == |second| == |providers|
    ensures var approved := Approved(providers, first, second, region);
            && (true in approved <==> AnyApproved(providers, first, second, region))
            && (forall k :: 0 <= k < |providers| && approved[k] ==> Answered(providers, first, second, region, k))
            && (region.Some? && (exists i :: 0 <= i < |providers| && providers[i].region == region.value && first[i])
                ==> forall k :: 0 <= k < |providers| && approved[k] ==> providers[k].region == region.value)
  {
    var approved := Approved(providers, first, second, region);
    if i :| 0 <= i < |providers| && region.Some? && providers[i].region == region.value && first[i] {
      assert InPool(providers, region, i);
    }
    if i :| 0 <= i < |providers| && InPool(providers, region, i) && first[i] {
      assert approved[i];
    } else if i :| 0 <= i < |providers| && second[i] {
      assert approved[i];
    }
  }

  /**
   When health does not change during a call and no two records are equal, the provider used is
   itself healthy, and a call fails exactly when nobody is.
   */
  lemma SteadyChoice(providers: seq<Provider>, pos: nat, healthy: seq<bool>, region: Option<string>)
    requires |healthy| == |providers| && pos < |WeightedIds(providers)|
    requires forall i, j :: 0 <= i < j < |providers| ==> providers[i] != providers[j]
    ensures var chosen := Chosen(providers, pos, healthy, healthy, region).0;
            && (chosen.None? <==> forall i :: 0 <= i < |healthy| ==> !healthy[i])
            && (chosen.Some? ==> chosen.value < |providers| && healthy[chosen.value])
  {
    ChosenIsHealthyAndNear(providers, pos, healthy, healthy, region);
  }

  // ----- Fairness -----

  /** The providers used by `n` consecutive calls with everyone healthy and no preference. */
  function Served(providers: seq<Provider>, pos: nat, healthy: seq<bool>, n: nat): (used: seq<Option<nat>>)
    requires |healthy| == |providers| && pos < |WeightedIds(providers)|
    ensures |used| == n
    decreases n
  {
    if n == 0 then []
    else
      var (chosen, next) := Chosen(providers, pos, healthy, healthy, None);
      [chosen] + Served(providers, next, healthy, n - 1)
  }

  /** `n` consecutive entries of the cycle. */
  function Drawn(ids: seq<nat>, pos: nat, n: nat): (drawn: seq<nat>)
    requires pos < |ids|
    ensures |drawn| == n
    decreases n
  {
    if n == 0 then [] else [ids[pos]] + Drawn(ids, Step(|ids|, pos), n - 1)
  }

  lemma {:induction false} HealthyCallsFollowCycle(providers: seq<Provider>, pos: nat, healthy: seq<bool>, n: nat)
    requires |healthy| == |providers| && pos < |WeightedIds(providers)|
    requires forall i :: 0 <= i < |healthy| ==> healthy[i]
    ensures forall k :: 0 <= k < n ==>
      Served(providers, pos, healthy, n)[k] == Some(Drawn(WeightedIds(providers), pos, n)[k])
    decreases n
  {
    if n > 0 {
      var ids, approved := WeightedIds(providers), Approved(providers, healthy, healthy, None);
      var eligible := Eligible(providers, approved);
      assert providers != [] && approved[0];
      assert Listed(providers, approved, ids[pos]) && eligible[ids[pos]];
      assert Skipped(ids, pos, eligible, 2 * |providers|) == Some(0);
      assert Advance(|ids|, pos, 1) == Step(|ids|, pos);
      HealthyCallsFollowCycle(providers, Step(|ids|, pos), healthy, n - 1);
    }
  }

  lemma {:induction false} DrawnToEnd(ids: seq<nat>, pos: nat, n: nat)
    requires pos < |ids| && n <= |ids| - pos
    ensures Drawn(ids, pos, n) == ids[pos..pos + n]
    decreases n
  {
    if n > 0 {
      if n > 1 {
        DrawnToEnd(ids, pos + 1, n - 1);
      }
      assert ids[pos..pos + n] == [ids[pos]] + ids[pos + 1..pos + n];
    }
  }

  lemma {:induction false} DrawnSplit(ids: seq<nat>, pos: nat, m: nat, n: nat)
    requires pos < |ids|
    ensures Drawn(ids, pos, m + n) == Drawn(ids, pos, m) + Drawn(ids, Advance(|ids|, pos, m), n)
    decreases m
  {
    if m > 0 {
      DrawnSplit(ids, Step(|ids|, pos), m - 1, n);
    } else {
      assert Drawn(ids, pos, 0) == [];
    }
  }

  lemma {:induction false} AdvanceToEnd(size: nat, pos: nat)
    requires pos < size
    ensures Advance(size, pos, size - pos) == 0
    decreases size - pos
  {
    if pos + 1 < size {
      AdvanceToEnd(size, pos + 1);
    } else {
      assert Advance(size, 0, 0) == 0;
    }
  }

  /** A full turn from anywhere draws a rotation of the cycle. */
  lemma FullTurnRotates(ids: seq<nat>, pos: nat)
    requires pos < |ids|
    ensures Drawn(ids, pos, |ids|) == ids[pos..] + ids[..pos]
  {
    var m := |ids| - pos;
    AdvanceToEnd(|ids|, pos);
    DrawnSplit(ids, pos, m, pos);
    DrawnToEnd(ids, pos, m);
    DrawnToEnd(ids, 0, pos);
    assert m + pos == |ids|;
  }

  lemma FullTurn(ids: seq<nat>, pos: nat)
    requires pos < |ids|
    ensures multiset(Drawn(ids, pos, |ids|)) == multiset(ids)
  {
    FullTurnRotates(ids, pos);
    assert ids == ids[..pos] + ids[pos..];
  }

  function Uses(used: seq<Option<nat>>, i: nat): nat {
    if used == [] then 0 else (if used[0] == Some(i) then 1 else 0) + Uses(used[1..], i)
  }

  lemma {:induction false} UsesCounts(used: seq<Option<nat>>, drawn: seq<nat>, i: nat)
    requires |used| == |drawn| && forall k :: 0 <= k < |used| ==> used[k] == Some(drawn[k])
    ensures Uses(used, i) == multiset(drawn)[i]
  {
    if used != [] {
      UsesCounts(used[1..], drawn[1..], i);
      assert drawn == [drawn[0]] + drawn[1..];
    } else {
      assert drawn == [];
    }
  }

  /**
   With every provider healthy and no preferred region, any W consecutive calls, W being the sum of
   the weights counted as at least 1, use each provider exactly as often as its weight says.
   */
  lemma WeightedFairness(providers: seq<Provider>, pos: nat, healthy: seq<bool>, i: nat)
    requires |healthy| == |providers| && pos < |WeightedIds(providers)| && i < |providers|
    requires forall k :: 0 <= k < |healthy| ==> healthy[k]
    ensures Uses(Served(providers, pos, healthy, TotalWeight(providers)), i) == Share(providers[i].weight)
  {
    var ids := WeightedIds(providers);
    CycleLength(providers);
    HealthyCallsFollowCycle(providers, pos, healthy, |ids|);
    UsesCounts(Served(providers, pos, healthy, |ids|), Drawn(ids, pos, |ids|), i);
    FullTurn(ids, pos);
    WeightedIdsCount(providers, i);
  }
}
