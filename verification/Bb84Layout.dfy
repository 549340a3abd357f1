/**
 What a BB84 session sifts, shuffles and reports, read off the entropy words alone,
 `src/qkd/mod.rs`.

 `Layout` says where in the words each qubit starts, by the parities of the two basis words; the laws
 say what the session functions of `Bb84` make of that.
 */
module Bb84Layout {
  import opened Bytes
  import opened Doubles
  import opened Bb84
  import opened Shuffle

  /** The two basis words of the qubit at `p` have one parity: the bases agree. */
  predicate Agree(words: seq<u64>, p: nat) {
    p + 2 < |words| && words[p + 1] % 2 == words[p + 2] % 2
  }

  /** A qubit takes four words when the bases agree and five when they differ. */
  predicate Spans(words: seq<u64>, p: nat, next: nat) {
    p + 3 <= |words| && next <= |words| && next == p + if Agree(words, p) then 4 else 5
  }

  /** The start of every qubit, and the position after the last. */
  predicate Layout(words: seq<u64>, pos: nat, starts: seq<nat>) {
    && starts != [] && starts[0] == pos <= |words|
    && forall k :: 0 <= k < |starts| - 1 ==> Spans(words, starts[k], starts[k + 1])
  }

  /** `kept` lists, in order, exactly the qubits whose bases agree. */
  predicate Keeps(words: seq<u64>, starts: seq<nat>, kept: seq<nat>)
    requires starts != []
  {
    && (forall i, j :: 0 <= i < j < |kept| ==> kept[i] < kept[j])
    && (forall i :: 0 <= i < |kept| ==> kept[i] < |starts| - 1 && Agree(words, starts[kept[i]]))
    && (forall k: nat :: k < |starts| - 1 && Agree(words, starts[k]) ==> k in kept)
  }

  function SentBit(words: seq<u64>, p: nat): u8
    requires p < |words|
  {
    (words[p] % 2) as u8
  }

  /** What Bob reads of a kept qubit: the bit sent, flipped exactly when the fourth word is noisy. */
  function ReadBit(words: seq<u64>, p: nat, noise: real): u8
    requires p + 3 < |words|
  {
    if Unit(words[p + 3]) < noise then 1 - SentBit(words, p) else SentBit(words, p)
  }

  lemma KeptHasFourWords(words: seq<u64>, pos: nat, starts: seq<nat>, kept: seq<nat>, i: nat)
    requires Layout(words, pos, starts) && Keeps(words, starts, kept) && i < |kept|
    ensures starts[kept[i]] + 3 < |words|
  {
    assert Spans(words, starts[kept[i]], starts[kept[i] + 1]);
  }

  /** The two sifted strings and where they leave the source, from the words. */
  ghost predicate SiftedAs(words: seq<u64>, noise: real, starts: seq<nat>, kept: seq<nat>, s: Sifted)
    requires starts != [] && forall i :: 0 <= i < |kept| ==> kept[i] < |starts| && starts[kept[i]] + 3 < |words|
  {
    && s.Sifted? && |s.alice| == |s.bob| == |kept| && s.next == starts[|starts| - 1]
    && (forall i :: 0 <= i < |kept| ==> s.alice[i] == SentBit(words, starts[kept[i]]))
    && (forall i :: 0 <= i < |kept| ==> s.bob[i] == ReadBit(words, starts[kept[i]], noise))
  }

  /** The qubits kept among all but the last. */
  function KeptBefore(kept: seq<nat>, last: nat): seq<nat> {
    if kept != [] && kept[|kept| - 1] == last then kept[..|kept| - 1] else kept
  }

  lemma KeepsBefore(words: seq<u64>, pos: nat, starts: seq<nat>, kept: seq<nat>)
    requires Layout(words, pos, starts) && Keeps(words, starts, kept) && |starts| > 1
    ensures var n := |starts| - 2;
            && Layout(words, pos, starts[..n + 1]) && Keeps(words, starts[..n + 1], KeptBefore(kept, n))
            && (Agree(words, starts[n]) <==> kept != [] && kept[|kept| - 1] == n)
  {
    hide Agree, Spans;
    var n := |starts| - 2;
    var before, kept' := starts[..n + 1], KeptBefore(kept, n);
    if Agree(words, starts[n]) {
      assert n in kept;
      var i :| 0 <= i < |kept| && kept[i] == n;
      assert i == |kept| - 1;
    }
    LayoutBefore(words, pos, starts);
    forall i | 0 <= i < |kept'|
      ensures kept'[i] < n && Agree(words, before[kept'[i]])
    {
      assert kept'[i] == kept[i] && kept[i] <= n;
    }
    forall k: nat | k < n && Agree(words, before[k])
      ensures k in kept'
    {
      assert before[k] == starts[k] && k in kept;
    }
  }

  lemma LayoutBefore(words: seq<u64>, pos: nat, starts: seq<nat>)
    requires Layout(words, pos, starts) && |starts| > 1
    ensures Layout(words, pos, starts[..|starts| - 1])
  {
    var before := starts[..|starts| - 1];
    forall k | 0 <= k < |before| - 1
      ensures Spans(words, before[k], before[k + 1])
    {
      assert Spans(words, starts[k], starts[k + 1]);
    }
  }

  /** A list of `n` or more different numbers has one that is not below `n`. */
  lemma {:induction false} NoneBelow(s: seq<nat>, n: nat)
    requires forall i, j :: 0 <= i < j < |s| ==> s[i] < s[j]
    requires forall i :: 0 <= i < |s| ==> s[i] < n
    ensures |s| <= n
  {
    if s != [] {
      NoneBelow(s[..|s| - 1], s[|s| - 1]);
    }
  }

  lemma {:induction false} LayoutSifts(words: seq<u64>, pos: nat, noise: real, starts: seq<nat>, kept: seq<nat>)
    requires Layout(words, pos, starts) && Keeps(words, starts, kept)
    ensures forall i :: 0 <= i < |kept| ==> kept[i] < |starts| && starts[kept[i]] + 3 < |words|
    ensures SiftedAs(words, noise, starts, kept, Sift(words, pos, noise, |starts| - 1))
    decreases |starts|
  {
    forall i | 0 <= i < |kept|
      ensures starts[kept[i]] + 3 < |words|
    {
      KeptHasFourWords(words, pos, starts, kept, i);
    }
    if |starts| > 1 {
      var n := |starts| - 2;
      KeepsBefore(words, pos, starts, kept);
      LayoutSifts(words, pos, noise, starts[..n + 1], KeptBefore(kept, n));
      SiftStep(words, pos, noise, starts, kept);
    } else {
      NoneBelow(kept, |starts| - 1);
    }
  }

  lemma SiftStep(words: seq<u64>, pos: nat, noise: real, starts: seq<nat>, kept: seq<nat>)
    requires |starts| > 1 && pos <= |words| && Spans(words, starts[|starts| - 2], starts[|starts| - 1])
    requires forall i :: 0 <= i < |kept| ==> kept[i] < |starts| - 1 && starts[kept[i]] + 3 < |words|
    requires forall i, j :: 0 <= i < j < |kept| ==> kept[i] < kept[j]
    requires Agree(words, starts[|starts| - 2]) <==> kept != [] && kept[|kept| - 1] == |starts| - 2
    requires SiftedAs(words, noise, starts[..|starts| - 1], KeptBefore(kept, |starts| - 2), Sift(words, pos, noise, |starts| - 2))
    ensures SiftedAs(words, noise, starts, kept, Sift(words, pos, noise, |starts| - 1))
  {
    hide Unit, ReadQubit, Agree, Spans, SentBit, ReadBit;
    var n := |starts| - 2;
    var before, kept' := starts[..n + 1], KeptBefore(kept, n);
    QubitFromWords(words, starts[n], starts[n + 1], noise);
    assert forall i :: 0 <= i < |kept'| ==> kept'[i] == kept[i] && before[kept'[i]] == starts[kept[i]];
    var s, s' := Sift(words, pos, noise, n), Sift(words, pos, noise, n + 1);
    assert |s'.alice| == |s'.bob| == |kept|;
    forall i | 0 <= i < |kept|
      ensures s'.alice[i] == SentBit(words, starts[kept[i]]) && s'.bob[i] == ReadBit(words, starts[kept[i]], noise)
    {
      if i < |kept'| {
        assert s.alice[i] == SentBit(words, before[kept'[i]]) && s.bob[i] == ReadBit(words, before[kept'[i]], noise);
      }
    }
  }

  /** One qubit, from the words. */
  lemma QubitFromWords(words: seq<u64>, p: nat, next: nat, noise: real)
    requires Spans(words, p, next)
    ensures var q := ReadQubit(words, p, noise);
            && q.Qubit? && q.matching == Agree(words, p) && q.next == next && q.alice == SentBit(words, p)
            && (q.matching ==> q.bob == ReadBit(words, p, noise))
  {
    hide Unit;
  }

  /** A session that does not run out of words while transmitting has a layout. */
  lemma {:induction false} SiftHasLayout(words: seq<u64>, pos: nat, noise: real, n: nat)
    returns (starts: seq<nat>, kept: seq<nat>)
    requires pos <= |words| && Sift(words, pos, noise, n).Sifted?
    ensures Layout(words, pos, starts) && |starts| == n + 1 && Keeps(words, starts, kept)
    ensures starts[n] == Sift(words, pos, noise, n).next
  {
    hide Unit;
    if n == 0 {
      starts, kept := [pos], [];
    } else {
      var before, kept' := SiftHasLayout(words, pos, noise, n - 1);
      var q := ReadQubit(words, before[n - 1], noise);
      starts := before + [q.next];
      LayoutExtends(words, pos, before, q.next);
      assert starts[..n] == before;
      kept := KeptAfter(words, starts, kept');
      KeepsAfter(words, starts, kept');
    }
  }

  lemma LayoutExtends(words: seq<u64>, pos: nat, before: seq<nat>, next: nat)
    requires Layout(words, pos, before) && Spans(words, before[|before| - 1], next)
    ensures Layout(words, pos, before + [next])
  {
    var starts := before + [next];
    forall k | 0 <= k < |starts| - 1
      ensures Spans(words, starts[k], starts[k + 1])
    {
      if k < |before| - 1 {
        assert Spans(words, before[k], before[k + 1]);
      }
    }
  }

  /** The qubits kept once the last one is looked at. */
  function KeptAfter(words: seq<u64>, starts: seq<nat>, kept: seq<nat>): seq<nat>
    requires |starts| > 1
  {
    if Agree(words, starts[|starts| - 2]) then kept + [|starts| - 2] else kept
  }

  lemma KeepsAfter(words: seq<u64>, starts: seq<nat>, kept: seq<nat>)
    requires |starts| > 1 && Keeps(words, starts[..|starts| - 1], kept)
    ensures Keeps(words, starts, KeptAfter(words, starts, kept))
  {
    hide Agree;
    var n := |starts| - 1;
    var before, kept' := starts[..n], KeptAfter(words, starts, kept);
    forall i | 0 <= i < |kept|
      ensures kept[i] < n - 1 && Agree(words, starts[kept[i]])
    {
      assert Agree(words, before[kept[i]]);
    }
    forall k: nat | k < n && Agree(words, starts[k])
      ensures k in kept'
    {
      if k < n - 1 {
        assert before[k] == starts[k] && k in kept;
      } else {
        assert kept'[|kept|] == k;
      }
    }
  }

  /** A session runs out of words while transmitting exactly when its qubits cannot be laid out. */
  lemma SiftedIffLaidOut(words: seq<u64>, pos: nat, noise: real, n: nat)
    requires pos <= |words|
    ensures Sift(words, pos, noise, n).Sifted? <==> exists starts :: Layout(words, pos, starts) && |starts| == n + 1
  {
    if Sift(words, pos, noise, n).Sifted? {
      var starts, kept := SiftHasLayout(words, pos, noise, n);
    } else if starts :| Layout(words, pos, starts) && |starts| == n + 1 {
      var kept := Keeping(words, starts, n);
      LayoutSifts(words, pos, noise, starts, kept);
    }
  }

  /** The qubits whose bases agree, listed. */
  lemma {:induction false} Keeping(words: seq<u64>, starts: seq<nat>, n: nat) returns (kept: seq<nat>)
    requires |starts| == n + 1
    ensures Keeps(words, starts, kept)
  {
    if n == 0 {
      kept := [];
    } else {
      var kept' := Keeping(words, starts[..n], n - 1);
      kept := KeptAfter(words, starts, kept');
      KeepsAfter(words, starts, kept');
    }
  }

  /**
   The whole session from the words.  Which bits are sifted, with how many errors, which become the
   key, and where the source is left, are fixed by the parities and draws of the words.
   */
  lemma SessionFromWords(params: QkdParameters, noise: real, words: seq<u64>, pos: nat, starts: seq<nat>, kept: seq<nat>)
    requires ValidParameters(params) && Layout(words, pos, starts) && |starts| == params.qubitCount + 1
    requires Keeps(words, starts, kept)
    ensures forall i :: 0 <= i < |kept| ==> kept[i] < |starts| && starts[kept[i]] + 3 < |words|
    ensures var (r, next) := Session(params, noise, words, pos);
            var sifted := starts[params.qubitCount];
            if |kept| < params.sampleSize then r == Err(InsufficientSiftedBits) && next == sifted
            else if sifted + |kept| - 1 > |words| then r == Err(EntropyExhausted) && next == |words|
            else
              && r.Ok? && next == sifted + |kept| - 1
              && ReportsWords(words, noise, starts, kept, Sample(words, sifted, |kept|, params.sampleSize), params, r.value)
  {
    hide Unit, Quotient;
    LayoutSifts(words, pos, noise, starts, kept);
    var s := Sift(words, pos, noise, params.qubitCount);
    if |kept| >= params.sampleSize && s.next + |kept| - 1 <= |words| {
      ReportIsFaithful(params, noise, words, pos);
      var sample := Sample(words, s.next, |kept|, params.sampleSize);
      var report := Session(params, noise, words, pos).0.value;
      SampleIsPermutationPrefix(words, s.next, |kept|, params.sampleSize);
      ReportFromSifted(words, noise, starts, kept, sample, params, s, report);
    }
  }

  /** A report in terms of the words. */
  ghost predicate ReportsWords(words: seq<u64>, noise: real, starts: seq<nat>, kept: seq<nat>, sample: seq<nat>,
                               params: QkdParameters, report: Report)
    requires forall i :: 0 <= i < |kept| ==> kept[i] < |starts| && starts[kept[i]] + 3 < |words|
  {
    && report.rawBits == params.qubitCount && report.siftedBits == |kept| && report.sampledBits == params.sampleSize
    && (forall i :: 0 <= i < |sample| ==> sample[i] < |kept|)
    && report.mismatches == |set i | 0 <= i < |sample| && Unit(words[starts[kept[sample[i]]] + 3]) < noise|
    && var key := KeyPositions(|kept|, sample);
       && |report.finalKeyBits| == |key|
       && forall i :: 0 <= i < |key| ==>
            key[i] < |kept| && report.finalKeyBits[i] == SentBit(words, starts[kept[key[i]]])
  }

  lemma ReportFromSifted(words: seq<u64>, noise: real, starts: seq<nat>, kept: seq<nat>, sample: seq<nat>,
                         params: QkdParameters, s: Sifted, report: Report)
    requires ValidParameters(params) && starts != []
    requires forall i :: 0 <= i < |kept| ==> kept[i] < |starts| && starts[kept[i]] + 3 < |words|
    requires SiftedAs(words, noise, starts, kept, s) && Faithful(report, params, s, sample)
    ensures ReportsWords(words, noise, starts, kept, sample, params, report)
  {
    hide Unit, Quotient, KeyPositions, Mismatches;
    MismatchCount(s.alice, s.bob, sample);
    forall i | 0 <= i < |sample|
      ensures s.alice[sample[i]] != s.bob[sample[i]] <==> Unit(words[starts[kept[sample[i]]] + 3]) < noise
    {
      assert s.bob[sample[i]] == ReadBit(words, starts[kept[sample[i]]], noise);
    }
    assert (set i | 0 <= i < |sample| && s.alice[sample[i]] != s.bob[sample[i]])
        == (set i | 0 <= i < |sample| && Unit(words[starts[kept[sample[i]]] + 3]) < noise);
  }

  /** The mismatch count is the number of sampled positions at which the strings differ. */
  lemma {:induction false} MismatchCount(alice: seq<u8>, bob: seq<u8>, sample: seq<nat>)
    requires |alice| == |bob| && forall i :: 0 <= i < |sample| ==> sample[i] < |alice|
    ensures Mismatches(alice, bob, sample) == |set i | 0 <= i < |sample| && alice[sample[i]] != bob[sample[i]]|
  {
    var differing := set i | 0 <= i < |sample| && alice[sample[i]] != bob[sample[i]];
    if sample == [] {
      assert differing == {};
    } else {
      var n := |sample| - 1;
      var before := sample[..n];
      MismatchCount(alice, bob, before);
      var differing' := set i | 0 <= i < n && alice[before[i]] != bob[before[i]];
      assert differing == if alice[sample[n]] != bob[sample[n]] then differing' + {n} else differing';
    }
  }

  // ----- The sample, from the words -----

  /** The index list, from 0, 1, 2, ... on, swapped at each position from the last down to 1. */
  predicate SwapRun(words: seq<u64>, p: nat, len: nat, trace: seq<seq<nat>>) {
    && |trace| == (if len == 0 then 1 else len) && p + |trace| - 1 <= |words|
    && |trace[0]| == len && (forall i :: 0 <= i < len ==> trace[0][i] == i)
    && forall t :: 0 <= t < |trace| - 1 ==> |trace[t]| == len && SwapStep(trace[t], trace[t + 1], len - 1 - t, words[p + t])
  }

  /** Position `i` changes places with the position the word picks among those up to it. */
  predicate SwapStep(a: seq<nat>, b: seq<nat>, i: nat, word: u64)
    requires i < |a|
  {
    var j := word as nat % (i + 1);
    |b| == |a| && b[i] == a[j] && b[j] == a[i] && forall k :: 0 <= k < |a| && k != i && k != j ==> b[k] == a[k]
  }

  lemma SwapStepIsSwap(a: seq<nat>, b: seq<nat>, i: nat, word: u64)
    requires i < |a| && SwapStep(a, b, i, word)
    ensures b == Swap(a, i, word as nat % (i + 1))
  {
  }

  lemma ChoiceIsRemainder(words: seq<u64>, p: nat, bound: nat)
    requires p < |words| && bound > 0
    ensures ChoiceAt(words, p, bound) == words[p] as nat % bound
  {
  }

  lemma {:induction false} RunFrom(words: seq<u64>, p: nat, len: nat, trace: seq<seq<nat>>, t: nat)
    requires SwapRun(words, p, len, trace) && t < |trace|
    ensures |trace[t]| == len && Pending(words, p, trace[0], len) == Pending(words, p + t, trace[t], len - t)
  {
    hide Pending, ChoiceAt, Swap;
    if t > 0 {
      RunFrom(words, p, len, trace, t - 1);
      assert SwapStep(trace[t - 1], trace[t], len - t, words[p + t - 1]);
      SwapStepIsSwap(trace[t - 1], trace[t], len - t, words[p + t - 1]);
      ChoiceIsRemainder(words, p + t - 1, len - t + 1);
      ShuffleTurn(words, p + t - 1, trace[t - 1], len - t + 1);
    }
  }

  /** The sample is the beginning of the swapped index list. */
  lemma SampleFromWords(words: seq<u64>, p: nat, len: nat, sampleSize: nat, trace: seq<seq<nat>>)
    requires SwapRun(words, p, len, trace) && sampleSize <= len
    ensures |trace[|trace| - 1]| == len && Sample(words, p, len, sampleSize) == trace[|trace| - 1][..sampleSize]
  {
    var t := |trace| - 1;
    RunFrom(words, p, len, trace, t);
    assert trace[0] == Iota(len) by {
      IotaAt(len);
    }
    ShuffleEnds(words, p, trace[0], len);
    ShuffleEnds(words, p + t, trace[t], len - t);
  }

  lemma {:induction false} IotaAt(n: nat)
    ensures |Iota(n)| == n && forall i :: 0 <= i < n ==> Iota(n)[i] == i
  {
    if n > 0 {
      IotaAt(n - 1);
    }
  }

  /** Every sequence of swap choices is drawn by some words. */
  lemma EveryChoiceIsDrawn(len: nat, cs: seq<nat>) returns (words: seq<u64>)
    requires ValidChoices(len, cs) && len <= 0x1_0000_0000_0000_0000
    ensures |words| == |cs| && ChoicesFrom(words, 0, len) == cs
  {
    words := seq(|cs|, k requires 0 <= k < |cs| => cs[k] as u64);
    DrawnFrom(len, cs, words, 0);
    assert cs[0..] == cs;
  }

  lemma {:induction false} DrawnFrom(len: nat, cs: seq<nat>, words: seq<u64>, p: nat)
    requires ValidChoices(len, cs) && |words| == |cs| && forall k :: 0 <= k < |cs| ==> words[k] as nat == cs[k]
    requires p <= |cs|
    ensures ChoicesFrom(words, p, len - p) == cs[p..]
    decreases |cs| - p
  {
    if p < |cs| {
      DrawnFrom(len, cs, words, p + 1);
      assert cs[p] < len - p;
      SmallMod(cs[p], len - p);
      assert cs[p..] == [cs[p]] + cs[p + 1..];
    }
  }

  lemma SmallMod(x: nat, m: nat)
    requires x < m
    ensures x % m == x
  {
  }
}
