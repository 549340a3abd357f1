/**
 The BB84 key distribution simulator, `src/qkd/mod.rs`.

 An entropy source is the finite sequence of words it will deliver before it reports exhaustion.
 `noise` is the channel's flip probability, a double; a bit is flipped when the word drawn, rounded
 to a double and divided by 2^64 (`Unit`), is below it.  `Quotient` is the division of two counts in
 double precision.
 */
module Bb84 {
  import opened Bytes
  import opened Doubles
  import opened Shuffle

  datatype QkdError =
    | EmptyTransmission | InvalidSampleSize | InvalidMaxQber | InsufficientSiftedBits | EntropyExhausted
    | InvalidNoiseProbability

  datatype Result<T> = Ok(value: T) | Err(error: QkdError)

  datatype Basis = Rectilinear | Diagonal

  datatype QkdParameters = QkdParameters(qubitCount: nat, sampleSize: nat, maxQber: real)

  datatype Report = Report(rawBits: nat, siftedBits: nat, sampledBits: nat, mismatches: nat, qber: real,
                           accepted: bool, finalKeyBits: seq<u8>)

  // ----- Entropy -----

  class EntropySource {
    const words: seq<u64>
    var pos: nat

    predicate Valid()
      reads this
    {
      pos <= |words|
    }

    constructor (words: seq<u64>)
      ensures Valid() && this.words == words && pos == 0
    {
      this.words, pos := words, 0;
    }

    method NextU64() returns (r: Result<u64>)
      requires Valid()
      modifies this`pos
      ensures Valid()
      ensures if old(pos) < |words| then r == Ok(words[old(pos)]) && pos == old(pos) + 1
              else r == Err(EntropyExhausted) && pos == old(pos)
    {
      if pos == |words| {
        return Err(EntropyExhausted);
      }
      r := Ok(words[pos]);
      pos := pos + 1;
    }

    method NextBit() returns (r: Result<u8>)
      requires Valid()
      modifies this`pos
      ensures Valid()
      ensures if old(pos) < |words| then r == Ok(Bit(words[old(pos)])) && pos == old(pos) + 1
              else r == Err(EntropyExhausted) && pos == old(pos)
    {
      var word := NextU64();
      if word.Err? {
        return Err(word.error);
      }
      r := Ok((word.value % 2) as u8);
    }
  }

  function Bit(word: u64): (b: u8)
    ensures b == 0 || b == 1
  {
    (word % 2) as u8
  }

  function BasisOf(word: u64): Basis {
    if Bit(word) == 0 then Rectilinear else Diagonal
  }

  method RandomBasis(entropy: EntropySource) returns (r: Result<Basis>)
    requires entropy.Valid()
    modifies entropy`pos
    ensures entropy.Valid()
    ensures if old(entropy.pos) < |entropy.words|
            then r == Ok(BasisOf(entropy.words[old(entropy.pos)])) && entropy.pos == old(entropy.pos) + 1
            else r == Err(EntropyExhausted) && entropy.pos == old(entropy.pos)
  {
    var bit := entropy.NextBit();
    if bit.Err? {
      return Err(bit.error);
    }
    r := Ok(if bit.value == 0 then Rectilinear else Diagonal);
  }

  function Flipped(bit: u8, draw: u64, noise: real): u8
    requires bit <= 1
  {
    if Unit(draw) < noise then 1 - bit else bit
  }

  method NewChannel(noise: real) returns (r: Result<real>)
    ensures r == if 0.0 <= noise <= 1.0 then Ok(noise) else Err(InvalidNoiseProbability)
  {
    if !(0.0 <= noise <= 1.0) {
      return Err(InvalidNoiseProbability);
    }
    return Ok(noise);
  }

  /** The words below `n` whose draw is below `p` are those below `t`. */
  ghost predicate IsThreshold(p: real, n: nat, t: nat) {
    t <= n && forall w: u64 :: w as nat < n ==> (Unit(w) < p <==> w as nat < t)
  }

  lemma {:induction false} ThresholdBelow(p: real, n: nat) returns (t: nat)
    requires n <= BEYOND
    ensures IsThreshold(p, n, t)
  {
    hide Unit;
    if n == 0 {
      t := 0;
    } else {
      t := ThresholdBelow(p, n - 1);
      var last := (n - 1) as u64;
      if t == n - 1 && Unit(last) < p {
        t := n;
      } else if t < n - 1 {
        UnitAscends(t as u64, last);
      }
    }
  }

  /** A channel flips on the words below some threshold, and on no others. */
  lemma NoiseThreshold(noise: real) returns (t: nat)
    ensures t <= BEYOND && forall w: u64 :: Unit(w) < noise <==> w as nat < t
  {
    hide Unit;
    t := ThresholdBelow(noise, BEYOND);
    forall w: u64
      ensures Unit(w) < noise <==> w as nat < t
    {
      assert w as nat < BEYOND;
    }
  }

  /** A channel of noise 0 flips nothing; one of noise 1 flips on every word but the last 1024. */
  lemma NoiseEnds(w: u64, bit: u8)
    requires bit <= 1
    ensures Flipped(bit, w, 0.0) == bit
    ensures Flipped(bit, w, 1.0) == if w as nat < ROUNDS_TO_ONE then 1 - bit else bit
  {
    hide Unit;
    UnitIsOneIff(w);
  }

  method MaybeFlip(noise: real, bit: u8, entropy: EntropySource) returns (r: Result<u8>)
    requires entropy.Valid() && bit <= 1
    modifies entropy`pos
    ensures entropy.Valid()
    ensures if old(entropy.pos) < |entropy.words|
            then r == Ok(Flipped(bit, entropy.words[old(entropy.pos)], noise)) && entropy.pos == old(entropy.pos) + 1
            else r == Err(EntropyExhausted) && entropy.pos == old(entropy.pos)
  {
    var draw := entropy.NextU64();
    if draw.Err? {
      return Err(draw.error);
    }
    r := Ok(if Unit(draw.value) < noise then 1 - bit else bit);
  }

  // ----- Transmission -----

  datatype Qubit = Lost | Qubit(matching: bool, alice: u8, bob: u8, next: nat)

  /** One qubit read from the words at `pos`: four of them, or five when the bases differ. */
  function ReadQubit(words: seq<u64>, pos: nat, noise: real): (q: Qubit)
    ensures q.Qubit? ==> q.alice <= 1 && q.bob <= 1 && q.next <= |words|
    ensures q.Qubit? ==> q.next == pos + if q.matching then 4 else 5
    ensures q.Lost? ==> pos + 5 > |words|
  {
    if pos + 3 > |words| then Lost
    else
      var alice := Bit(words[pos]);
      if BasisOf(words[pos + 1]) == BasisOf(words[pos + 2]) then
        if pos + 4 > |words| then Lost
        else Qubit(true, alice, Flipped(alice, words[pos + 3], noise), pos + 4)
      else
        if pos + 5 > |words| then Lost
        else Qubit(false, alice, Flipped(Bit(words[pos + 3]), words[pos + 4], noise), pos + 5)
  }

  method TransmitQubit(noise: real, entropy: EntropySource) returns (q: Qubit)
    requires entropy.Valid()
    modifies entropy`pos
    ensures entropy.Valid()
    ensures q == ReadQubit(entropy.words, old(entropy.pos), noise)
    ensures entropy.pos == if q.Lost? then |entropy.words| else q.next
  {
    var aliceBit := entropy.NextBit();
    if aliceBit.Err? {
      return Lost;
    }
    var aliceBasis := RandomBasis(entropy);
    if aliceBasis.Err? {
      return Lost;
    }
    var bobBasis := RandomBasis(entropy);
    if bobBasis.Err? {
      return Lost;
    }
    var idealBobBit := aliceBit;
    if aliceBasis.value != bobBasis.value {
      idealBobBit := entropy.NextBit();
      if idealBobBit.Err? {
        return Lost;
      }
    }
    var bobBit := MaybeFlip(noise, idealBobBit.value, entropy);
    if bobBit.Err? {
      return Lost;
    }
    q := Qubit(aliceBasis.value == bobBasis.value, aliceBit.value, bobBit.value, entropy.pos);
  }

  datatype Sifted = Exhausted | Sifted(alice: seq<u8>, bob: seq<u8>, next: nat)

  /** The bits kept from `n` qubits: those measured in the sender's basis. */
  function Sift(words: seq<u64>, pos: nat, noise: real, n: nat): (s: Sifted)
    requires pos <= |words|
    ensures s.Sifted? ==> s.next <= |words|
  {
    if n == 0 then Sifted([], [], pos)
    else
      match Sift(words, pos, noise, n - 1)
      case Exhausted => Exhausted
      case Sifted(alice, bob, next) =>
        match ReadQubit(words, next, noise)
        case Lost => Exhausted
        case Qubit(matching, a, b, next') =>
          if matching then Sifted(alice + [a], bob + [b], next') else Sifted(alice, bob, next')
  }

  /** Sifting spends five words a qubit, less one for every bit kept. */
  lemma {:induction false} SiftCost(words: seq<u64>, pos: nat, noise: real, n: nat)
    requires pos <= |words|
    ensures var s := Sift(words, pos, noise, n);
            && (s.Sifted? ==> |s.alice| == |s.bob| <= n && s.next == pos + 5 * n - |s.alice|)
            && (s.Exhausted? ==> pos + 5 * n > |words|)
  {
    if n > 0 {
      SiftCost(words, pos, noise, n - 1);
    }
  }

  lemma {:induction false} SiftStaysExhausted(words: seq<u64>, pos: nat, noise: real, k: nat, n: nat)
    requires pos <= |words| && k <= n && Sift(words, pos, noise, k).Exhausted?
    ensures Sift(words, pos, noise, n).Exhausted?
  {
    if k < n {
      SiftStaysExhausted(words, pos, noise, k, n - 1);
    }
  }

  method Transmit(n: nat, noise: real, entropy: EntropySource) returns (s: Sifted)
    requires entropy.Valid()
    modifies entropy`pos
    ensures entropy.Valid()
    ensures s == Sift(entropy.words, old(entropy.pos), noise, n)
    ensures entropy.pos == if s.Exhausted? then |entropy.words| else s.next
  {
    var siftedAlice, siftedBob := [], [];
    for k := 0 to n
      invariant entropy.Valid()
      invariant Sift(entropy.words, old(entropy.pos), noise, k) == Sifted(siftedAlice, siftedBob, entropy.pos)
    {
      var q := TransmitQubit(noise, entropy);
      if q.Lost? {
        SiftStaysExhausted(entropy.words, old(entropy.pos), noise, k + 1, n);
        return Exhausted;
      }
      if q.matching {
        siftedAlice := siftedAlice + [q.alice];
        siftedBob := siftedBob + [q.bob];
      }
    }
    s := Sifted(siftedAlice, siftedBob, entropy.pos);
  }

  // ----- Sampling -----

  function Draws(len: nat): nat {
    if len == 0 then 0 else len - 1
  }

  /** The swap choices the words at `pos` stand for; a word that is not there counts as 0. */
  function ChoicesFrom(words: seq<u64>, pos: nat, len: nat): (cs: seq<nat>)
    ensures ValidChoices(len, cs)
    decreases len
  {
    if len <= 1 then []
    else
      var first, rest := ChoiceAt(words, pos, len), ChoicesFrom(words, pos + 1, len - 1);
      assert forall k :: 0 < k < len - 1 ==> ([first] + rest)[k] == rest[k - 1];
      [first] + rest
  }

  function ChoiceAt(words: seq<u64>, pos: nat, bound: nat): (j: nat)
    requires 0 < bound
    ensures j < bound
  {
    if pos < |words| then words[pos] as nat % bound else 0
  }

  function Sample(words: seq<u64>, pos: nat, len: nat, sampleSize: nat): (sample: seq<nat>)
    requires pos + Draws(len) <= |words| && sampleSize <= len
    ensures |sample| == sampleSize
  {
    Shuffled(Iota(len), ChoicesFrom(words, pos, len))[..sampleSize]
  }

  method DrawBelow(bound: nat, entropy: EntropySource) returns (r: Result<nat>)
    requires entropy.Valid() && 0 < bound
    modifies entropy`pos
    ensures entropy.Valid()
    ensures if old(entropy.pos) < |entropy.words|
            then r == Ok(ChoiceAt(entropy.words, old(entropy.pos), bound)) && entropy.pos == old(entropy.pos) + 1
            else r == Err(EntropyExhausted) && entropy.pos == old(entropy.pos)
  {
    var word := entropy.NextU64();
    if word.Err? {
      return Err(word.error);
    }
    r := Ok(word.value as nat % bound);
  }

  /** The whole array, once the words from `pos` on have shuffled its first `i` entries. */
  function Pending(words: seq<u64>, pos: nat, a: seq<nat>, i: nat): seq<nat>
    requires i <= |a|
  {
    Shuffled(a[..i], ChoicesFrom(words, pos, i)) + a[i..]
  }

  /** One swap of the loop, seen on the whole array. */
  lemma ShuffleTurn(words: seq<u64>, pos: nat, a: seq<nat>, i: nat)
    requires 1 < i <= |a|
    ensures Pending(words, pos, a, i) == Pending(words, pos + 1, Swap(a, i - 1, ChoiceAt(words, pos, i)), i - 1)
  {
    var b := Swap(a, i - 1, ChoiceAt(words, pos, i));
    var j, cs := ChoiceAt(words, pos, i), ChoicesFrom(words, pos, i);
    assert cs[0] == j && cs[1..] == ChoicesFrom(words, pos + 1, i - 1);
    assert Swap(a[..i], i - 1, j) == b[..i];
    assert b[..i][..i - 1] == b[..i - 1];
    assert b[i - 1..] == [b[i - 1]] + a[i..];
  }

  lemma ShuffleEnds(words: seq<u64>, pos: nat, a: seq<nat>, i: nat)
    requires i <= |a|
    ensures i == |a| ==> Pending(words, pos, a, i) == Shuffled(a, ChoicesFrom(words, pos, i))
    ensures i <= 1 ==> Pending(words, pos, a, i) == a
  {
    assert a[..|a|] == a;
    assert a == a[..i] + a[i..];
  }

  method SwapEntries(idx: array<nat>, i: nat, j: nat)
    requires i < idx.Length && j < idx.Length
    modifies idx
    ensures idx[..] == Swap(old(idx[..]), i, j)
  {
    idx[i], idx[j] := idx[j], idx[i];
  }

  /** The body of the loop: what is pending stays the same. */
  method ShuffleStep(idx: array<nat>, last: nat, entropy: EntropySource) returns (exhausted: bool)
    requires entropy.Valid() && 0 < last < idx.Length
    modifies idx, entropy`pos
    ensures entropy.Valid()
    ensures exhausted <==> old(entropy.pos) == |entropy.words|
    ensures entropy.pos == old(entropy.pos) + if exhausted then 0 else 1
    ensures !exhausted ==>
      Pending(entropy.words, old(entropy.pos), old(idx[..]), last + 1) == Pending(entropy.words, entropy.pos, idx[..], last)
  {
    var j := DrawBelow(last + 1, entropy);
    if j.Err? {
      return true;
    }
    ShuffleTurn(entropy.words, old(entropy.pos), idx[..], last + 1);
    SwapEntries(idx, last, j.value);
    return false;
  }

  method ShuffleInPlace(idx: array<nat>, entropy: EntropySource) returns (exhausted: bool)
    requires entropy.Valid()
    modifies idx, entropy`pos
    ensures entropy.Valid()
    ensures exhausted <==> old(entropy.pos) + Draws(idx.Length) > |entropy.words|
    ensures entropy.pos == if exhausted then |entropy.words| else old(entropy.pos) + Draws(idx.Length)
    ensures !exhausted ==>
      idx[..] == Shuffled(old(idx[..]), ChoicesFrom(entropy.words, old(entropy.pos), idx.Length))
  {
    ghost var start, words, len := entropy.pos, entropy.words, idx.Length;
    ghost var goal := Pending(words, start, idx[..], len);
    ShuffleEnds(words, start, idx[..], len);
    var i := idx.Length;
    while i > 1
      invariant 0 <= i <= len && (i == 0 ==> len == 0)
      invariant entropy.Valid() && entropy.pos == start + (len - i)
      invariant goal == Pending(words, entropy.pos, idx[..], i)
    {
      i := i - 1;
      exhausted := ShuffleStep(idx, i, entropy);
      if exhausted {
        return;
      }
    }
    ShuffleEnds(words, entropy.pos, idx[..], i);
    return false;
  }

  /** `random_unique_indices`: the shuffle in place, then truncation. */
  method RandomUniqueIndices(len: nat, sampleSize: nat, entropy: EntropySource) returns (r: Result<seq<nat>>)
    requires entropy.Valid() && sampleSize <= len
    modifies entropy`pos
    ensures entropy.Valid()
    ensures if old(entropy.pos) + Draws(len) <= |entropy.words|
            then r == Ok(Sample(entropy.words, old(entropy.pos), len, sampleSize))
                 && entropy.pos == old(entropy.pos) + Draws(len)
            else r == Err(EntropyExhausted) && entropy.pos == |entropy.words|
  {
    var idx := new nat[len](i => i);
    assert idx[..] == Iota(len);
    var exhausted := ShuffleInPlace(idx, entropy);
    if exhausted {
      return Err(EntropyExhausted);
    }
    r := Ok(idx[..sampleSize]);
  }

  predicate Marked(sample: seq<nat>, i: nat) {
    exists k :: 0 <= k < |sample| && sample[k] == i
  }

  /** The positions below `n` that were not sampled, in order. */
  function KeyPositions(n: nat, sample: seq<nat>): seq<nat> {
    if n == 0 then []
    else if Marked(sample, n - 1) then KeyPositions(n - 1, sample)
    else KeyPositions(n - 1, sample) + [n - 1]
  }

  function BitsAt(bits: seq<u8>, positions: seq<nat>): (picked: seq<u8>)
    requires forall i :: 0 <= i < |positions| ==> positions[i] < |bits|
    ensures |picked| == |positions|
  {
    seq(|positions|, i requires 0 <= i < |positions| => bits[positions[i]])
  }

  lemma {:induction false} KeyPositionsInRange(n: nat, sample: seq<nat>)
    ensures forall i :: 0 <= i < |KeyPositions(n, sample)| ==> KeyPositions(n, sample)[i] < n
  {
    if n > 0 {
      KeyPositionsInRange(n - 1, sample);
    }
  }

  function Mismatches(alice: seq<u8>, bob: seq<u8>, sample: seq<nat>): (count: nat)
    requires |alice| == |bob| && forall i :: 0 <= i < |sample| ==> sample[i] < |alice|
    ensures count <= |sample|
  {
    if sample == [] then 0
    else
      var last := sample[|sample| - 1];
      Mismatches(alice, bob, sample[..|sample| - 1]) + if alice[last] != bob[last] then 1 else 0
  }

  predicate ValidParameters(params: QkdParameters) {
    params.qubitCount > 0 && params.sampleSize > 0 && 0.0 <= params.maxQber <= 1.0
  }

  lemma SampleIsPermutationPrefix(words: seq<u64>, pos: nat, len: nat, sampleSize: nat)
    requires pos + Draws(len) <= |words| && sampleSize <= len
    ensures var sample := Sample(words, pos, len, sampleSize);
            Distinct(sample) && forall i :: 0 <= i < |sample| ==> sample[i] < len
  {
    var cs := ChoicesFrom(words, pos, len);
    ShuffledPermutes(Iota(len), cs);
    PermutationOfIota(len, Shuffled(Iota(len), cs));
  }

  ghost function MakeReport(params: QkdParameters, s: Sifted, sample: seq<nat>): (report: Report)
    requires ValidParameters(params) && s.Sifted? && |s.alice| == |s.bob|
    requires forall i :: 0 <= i < |sample| ==> sample[i] < |s.alice|
  {
    KeyPositionsInRange(|s.alice|, sample);
    var mismatches := Mismatches(s.alice, s.bob, sample);
    var qber := Quotient(mismatches, params.sampleSize);
    Report(params.qubitCount, |s.alice|, params.sampleSize, mismatches, qber, qber <= params.maxQber,
           BitsAt(s.alice, KeyPositions(|s.alice|, sample)))
  }

  /** A whole session: its outcome and the position it leaves the entropy source at. */
  ghost function Session(params: QkdParameters, noise: real, words: seq<u64>, pos: nat): (r: (Result<Report>, nat))
    requires ValidParameters(params) && pos <= |words|
  {
    SiftCost(words, pos, noise, params.qubitCount);
    var s := Sift(words, pos, noise, params.qubitCount);
    if s.Exhausted? then (Err(EntropyExhausted), |words|)
    else if |s.alice| < params.sampleSize then (Err(InsufficientSiftedBits), s.next)
    else if s.next + Draws(|s.alice|) > |words| then (Err(EntropyExhausted), |words|)
    else
      SampleIsPermutationPrefix(words, s.next, |s.alice|, params.sampleSize);
      (Ok(MakeReport(params, s, Sample(words, s.next, |s.alice|, params.sampleSize))), s.next + Draws(|s.alice|))
  }

  method NewSimulator(params: QkdParameters) returns (r: Result<QkdParameters>)
    ensures r.Ok? <==> ValidParameters(params)
    ensures r.Ok? <==> params.qubitCount >= 1 && params.sampleSize >= 1 && 0.0 <= params.maxQber <= 1.0
    ensures r.Ok? ==> r.value == params
    ensures r.Err? ==> r.error == if params.qubitCount == 0 then EmptyTransmission
                                  else if params.sampleSize == 0 then InvalidSampleSize else InvalidMaxQber
  {
    if params.qubitCount == 0 {
      return Err(EmptyTransmission);
    }
    if params.sampleSize == 0 {
      return Err(InvalidSampleSize);
    }
    if !(0.0 <= params.maxQber <= 1.0) {
      return Err(InvalidMaxQber);
    }
    return Ok(params);
  }

  /** `Bb84Simulator::run`. */
  method Run(params: QkdParameters, noise: real, entropy: EntropySource) returns (r: Result<Report>)
    requires ValidParameters(params) && entropy.Valid()
    modifies entropy`pos
    ensures (r, entropy.pos) == Session(params, noise, entropy.words, old(entropy.pos))
  {
    hide Sift, Sample, KeyPositions, Mismatches, Distinct;
    SiftCost(entropy.words, entropy.pos, noise, params.qubitCount);
    var s := Transmit(params.qubitCount, noise, entropy);
    if s.Exhausted? {
      return Err(EntropyExhausted);
    }
    var siftedAlice, siftedBob := s.alice, s.bob;
    if |siftedAlice| < params.sampleSize {
      return Err(InsufficientSiftedBits);
    }
    var indices := RandomUniqueIndices(|siftedAlice|, params.sampleSize, entropy);
    if indices.Err? {
      return Err(indices.error);
    }
    var sample := indices.value;
    SampleIsPermutationPrefix(entropy.words, s.next, |siftedAlice|, params.sampleSize);
    var isSample := MarkSample(|siftedAlice|, sample);
    var mismatches := CountMismatches(siftedAlice, siftedBob, sample);
    var qber := Quotient(mismatches, params.sampleSize);
    var finalKeyBits := Unsampled(siftedAlice, sample, isSample);
    r := Ok(Report(params.qubitCount, |siftedAlice|, params.sampleSize, mismatches, qber,
                   qber <= params.maxQber, finalKeyBits));
  }

  method MarkSample(n: nat, sample: seq<nat>) returns (isSample: seq<bool>)
    requires forall i :: 0 <= i < |sample| ==> sample[i] < n
    ensures |isSample| == n && forall i :: 0 <= i < n ==> isSample[i] == Marked(sample, i)
  {
    var marks := new bool[n](_ => false);
    for k := 0 to |sample|
      invariant forall i :: 0 <= i < n ==> marks[i] == Marked(sample[..k], i)
    {
      marks[sample[k]] := true;
      forall i | 0 <= i < n
        ensures Marked(sample[..k + 1], i) == (Marked(sample[..k], i) || i == sample[k])
      {
        if Marked(sample[..k], i) {
          var j :| 0 <= j < k && sample[..k][j] == i;
          assert sample[..k + 1][j] == i;
        }
        assert sample[..k + 1][k] == sample[k];
      }
    }
    assert sample[..|sample|] == sample;
    isSample := marks[..];
  }

  method CountMismatches(alice: seq<u8>, bob: seq<u8>, sample: seq<nat>) returns (count: nat)
    requires |alice| == |bob| && forall i :: 0 <= i < |sample| ==> sample[i] < |alice|
    ensures count == Mismatches(alice, bob, sample)
  {
    count := 0;
    for k := 0 to |sample|
      invariant count == Mismatches(alice, bob, sample[..k])
    {
      assert sample[..k + 1][..k] == sample[..k];
      if alice[sample[k]] != bob[sample[k]] {
        count := count + 1;
      }
    }
    assert sample[..|sample|] == sample;
  }

  method Unsampled(bits: seq<u8>, sample: seq<nat>, isSample: seq<bool>) returns (key: seq<u8>)
    requires |isSample| == |bits| && forall i :: 0 <= i < |bits| ==> isSample[i] == Marked(sample, i)
    ensures (forall i :: 0 <= i < |KeyPositions(|bits|, sample)| ==> KeyPositions(|bits|, sample)[i] < |bits|)
         && key == BitsAt(bits, KeyPositions(|bits|, sample))
  {
    key := [];
    for i := 0 to |bits|
      invariant forall k :: 0 <= k < |KeyPositions(i, sample)| ==> KeyPositions(i, sample)[k] < |bits|
      invariant key == BitsAt(bits, KeyPositions(i, sample))
    {
      if !isSample[i] {
        key := key + [bits[i]];
      }
    }
  }

  // ----- What a session guarantees -----

  /**
   Entropy accounting.  A completed session draws exactly 5n - 1 words whatever the bases, the
   noise and the sample size: the shuffle spends what matching bases saved.  A session that sifts
   too few bits, s of them, draws 5n - s.  With 5n words no session runs out.
   */
  lemma EntropyAccounting(params: QkdParameters, noise: real, words: seq<u64>, pos: nat)
    requires ValidParameters(params) && pos <= |words|
    ensures var (r, next) := Session(params, noise, words, pos);
            match r
            case Ok(_) => next - pos == 5 * params.qubitCount - 1
            case Err(InsufficientSiftedBits) =>
              && Sift(words, pos, noise, params.qubitCount).Sifted?
              && |Sift(words, pos, noise, params.qubitCount).alice| < params.sampleSize
              && next - pos == 5 * params.qubitCount - |Sift(words, pos, noise, params.qubitCount).alice|
            case Err(e) => e == EntropyExhausted && next == |words| && |words| - pos < 5 * params.qubitCount
  {
    SiftCost(words, pos, noise, params.qubitCount);
  }

  /** The key positions are exactly the unsampled ones, in increasing order. */
  lemma {:induction false} KeyPositionsExact(n: nat, sample: seq<nat>)
    ensures forall i, j :: 0 <= i < j < |KeyPositions(n, sample)| ==> KeyPositions(n, sample)[i] < KeyPositions(n, sample)[j]
    ensures forall x: nat :: x in KeyPositions(n, sample) <==> x < n && !Marked(sample, x)
  {
    KeyPositionsInRange(n, sample);
    if n > 0 {
      KeyPositionsExact(n - 1, sample);
      KeyPositionsInRange(n - 1, sample);
    }
  }

  /**
   Sampled and key positions partition the sifted positions: together they are a permutation of
   them, so the key is the sifted string with the sampled bits taken out.
   */
  lemma SamplePartitions(n: nat, sample: seq<nat>)
    requires Distinct(sample) && forall i :: 0 <= i < |sample| ==> sample[i] < n
    ensures multiset(sample) + multiset(KeyPositions(n, sample)) == multiset(Iota(n))
    ensures |KeyPositions(n, sample)| == n - |sample|
  {
    var key := KeyPositions(n, sample);
    KeyPositionsExact(n, sample);
    assert Distinct(key);
    var sampled: multiset<nat>, kept: multiset<nat>, all: multiset<nat> :=
      multiset(sample), multiset(key), multiset(Iota(n));
    forall x: nat
      ensures sampled[x] + kept[x] == all[x]
    {
      OneOccurrence(sample, x);
      OneOccurrence(key, x);
      OneOccurrence(Iota(n), x);
      assert x in sampled <==> x in sample;
      assert x in kept <==> x in key;
      assert x in sample <==> Marked(sample, x);
      assert x < n ==> Iota(n)[x] == x;
      assert x in all <==> x < n;
    }
    assert sampled + kept == all;
    assert |sampled + kept| == |sample| + |key| && |all| == n;
  }

  /**
   What a report says of the sifted string `s` and the sampled positions: the positions are
   distinct, the key is the string at the remaining positions, in order, mismatches never exceed
   the sample, and acceptance is the bound on the error rate.
   */
  ghost predicate Faithful(report: Report, params: QkdParameters, s: Sifted, sample: seq<nat>)
    requires ValidParameters(params)
  {
    && s.Sifted? && |s.alice| == |s.bob| == report.siftedBits
    && report.rawBits == params.qubitCount && |sample| == report.sampledBits == params.sampleSize
    && Distinct(sample) && (forall i :: 0 <= i < |sample| ==> sample[i] < |s.alice|)
    && report.mismatches == Mismatches(s.alice, s.bob, sample) <= report.sampledBits
    && report.qber == Quotient(report.mismatches, report.sampledBits)
    && (report.accepted <==> report.qber <= params.maxQber)
    && var key := KeyPositions(|s.alice|, sample);
       && |report.finalKeyBits| == |key| == report.siftedBits - report.sampledBits
       && forall i :: 0 <= i < |key| ==> key[i] < |s.alice| && report.finalKeyBits[i] == s.alice[key[i]]
  }

  lemma MadeReportIsFaithful(params: QkdParameters, s: Sifted, sample: seq<nat>)
    requires ValidParameters(params) && s.Sifted? && |s.alice| == |s.bob| && |sample| == params.sampleSize
    requires Distinct(sample) && forall i :: 0 <= i < |sample| ==> sample[i] < |s.alice|
    ensures Faithful(MakeReport(params, s, sample), params, s, sample)
  {
    SamplePartitions(|s.alice|, sample);
    KeyPositionsInRange(|s.alice|, sample);
  }

  /** A successful session reports faithfully on what was sifted and on the shuffled sample. */
  lemma ReportIsFaithful(params: QkdParameters, noise: real, words: seq<u64>, pos: nat)
    requires ValidParameters(params) && pos <= |words|
    ensures Session(params, noise, words, pos).0.Ok? ==>
            var s := Sift(words, pos, noise, params.qubitCount);
            && s.Sifted? && params.sampleSize <= |s.alice| <= params.qubitCount
            && s.next + Draws(|s.alice|) <= |words|
            && Faithful(Session(params, noise, words, pos).0.value, params, s,
                        Sample(words, s.next, |s.alice|, params.sampleSize))
  {
    SiftCost(words, pos, noise, params.qubitCount);
    if Session(params, noise, words, pos).0.Ok? {
      var s := Sift(words, pos, noise, params.qubitCount);
      SampleIsPermutationPrefix(words, s.next, |s.alice|, params.sampleSize);
      MadeReportIsFaithful(params, s, Sample(words, s.next, |s.alice|, params.sampleSize));
    }
  }

  lemma FaithfulRate(report: Report, params: QkdParameters, s: Sifted, sample: seq<nat>)
    requires ValidParameters(params)
    ensures Faithful(report, params, s, sample) ==>
      && report.mismatches <= report.sampledBits == params.sampleSize
      && report.qber == Quotient(report.mismatches, report.sampledBits)
      && (report.accepted <==> report.qber <= params.maxQber)
  {
  }

  /**
   A session accepts exactly when the mismatch rate is within half a unit in the last place of the
   limit, written as the double `a / 2^b`; a rate exactly within the limit is never refused.
   */
  lemma AcceptanceBound(params: QkdParameters, noise: real, words: seq<u64>, pos: nat, a: nat, b: nat)
    requires ValidParameters(params) && pos <= |words|
    requires params.sampleSize <= EXACT_COUNTS && a < 0x20_0000_0000_0000
    requires Two(b) > 0 && params.maxQber == a as real / Two(b) as real
    ensures Session(params, noise, words, pos).0.Ok? ==>
            var report := Session(params, noise, words, pos).0.value;
            && (report.accepted <==> RoundsWithin(report.mismatches, report.sampledBits, a, b))
            && (report.mismatches * Two(b) <= a * report.sampledBits ==> report.accepted)
  {
    hide Session, Faithful, RoundsWithin, Quotient, Two, Sift, Sample;
    if Session(params, noise, words, pos).0.Ok? {
      var report, s := Session(params, noise, words, pos).0.value, Sift(words, pos, noise, params.qubitCount);
      ReportIsFaithful(params, noise, words, pos);
      FaithfulRate(report, params, s, Sample(words, s.next, |s.alice|, params.sampleSize));
      QuotientWithinIff(report.mismatches, report.sampledBits, a, b);
      if report.mismatches * Two(b) <= a * report.sampledBits {
        ExactlyWithin(report.mismatches, report.sampledBits, a, b);
      }
    }
  }

  /** A channel that flips no bit at all, or every one. */
  ghost predicate UniformlyNoisy(words: seq<u64>, noise: real) {
    noise == 0.0 || forall k :: 0 <= k < |words| ==> Unit(words[k]) < noise
  }

  /** A noise of 1 flips every bit exactly when the source has none of the words that round to 1. */
  lemma CertainNoiseIff(words: seq<u64>)
    ensures UniformlyNoisy(words, 1.0) <==> forall k :: 0 <= k < |words| ==> words[k] as nat < ROUNDS_TO_ONE
  {
    hide Unit;
    forall k | 0 <= k < |words|
      ensures Unit(words[k]) < 1.0 <==> words[k] as nat < ROUNDS_TO_ONE
    {
      UnitIsOneIff(words[k]);
    }
  }

  lemma QubitUnderUniformNoise(words: seq<u64>, pos: nat, noise: real)
    requires UniformlyNoisy(words, noise)
    ensures var q := ReadQubit(words, pos, noise);
            q.Qubit? && q.matching ==> (q.alice != q.bob) == (noise != 0.0)
  {
    hide Unit;
    forall k | 0 <= k < |words|
      ensures Unit(words[k]) >= 0.0
    {
      UnitIsOneIff(words[k]);
    }
  }

  ghost predicate UniformlyDifferent(alice: seq<u8>, bob: seq<u8>, differ: bool) {
    |alice| == |bob| && forall i :: 0 <= i < |alice| ==> (alice[i] != bob[i]) == differ
  }

  lemma {:induction false} SiftUnderUniformNoise(words: seq<u64>, pos: nat, noise: real, n: nat)
    requires pos <= |words| && UniformlyNoisy(words, noise)
    ensures Sift(words, pos, noise, n).Sifted? ==>
            var s := Sift(words, pos, noise, n); UniformlyDifferent(s.alice, s.bob, noise != 0.0)
  {
    if n > 0 {
      SiftUnderUniformNoise(words, pos, noise, n - 1);
      if Sift(words, pos, noise, n - 1).Sifted? {
        QubitUnderUniformNoise(words, Sift(words, pos, noise, n - 1).next, noise);
      }
    }
  }

  lemma {:induction false} UniformMismatches(alice: seq<u8>, bob: seq<u8>, sample: seq<nat>, differ: bool)
    requires UniformlyDifferent(alice, bob, differ) && forall i :: 0 <= i < |sample| ==> sample[i] < |alice|
    ensures Mismatches(alice, bob, sample) == if differ then |sample| else 0
  {
    if sample != [] {
      UniformMismatches(alice, bob, sample[..|sample| - 1], differ);
    }
  }

  /**
   A noiseless channel never shows a mismatch and is always accepted; one that flips every bit
   shows nothing else, and is accepted only by a limit of 1.
   */
  lemma UniformNoise(params: QkdParameters, noise: real, words: seq<u64>, pos: nat)
    requires ValidParameters(params) && pos <= |words|
    requires UniformlyNoisy(words, noise)
    ensures Session(params, noise, words, pos).0.Ok? ==>
            var report := Session(params, noise, words, pos).0.value;
            if noise == 0.0 then report.mismatches == 0 && report.qber == 0.0 && report.accepted
            else report.mismatches == params.sampleSize && report.qber == 1.0
                 && (report.accepted <==> params.maxQber == 1.0)
  {
    SiftCost(words, pos, noise, params.qubitCount);
    if Session(params, noise, words, pos).0.Ok? {
      var s := Sift(words, pos, noise, params.qubitCount);
      var sample := Sample(words, s.next, |s.alice|, params.sampleSize);
      SampleIsPermutationPrefix(words, s.next, |s.alice|, params.sampleSize);
      SiftUnderUniformNoise(words, pos, noise, params.qubitCount);
      UniformReport(params, s, sample, noise != 0.0);
    }
  }

  lemma UniformReport(params: QkdParameters, s: Sifted, sample: seq<nat>, differ: bool)
    requires ValidParameters(params) && s.Sifted? && |s.alice| == |s.bob| && |sample| == params.sampleSize
    requires forall i :: 0 <= i < |sample| ==> sample[i] < |s.alice|
    requires UniformlyDifferent(s.alice, s.bob, differ)
    ensures var report := MakeReport(params, s, sample);
            if !differ then report.mismatches == 0 && report.qber == 0.0 && report.accepted
            else report.mismatches == params.sampleSize && report.qber == 1.0
                 && (report.accepted <==> params.maxQber == 1.0)
  {
    UniformMismatches(s.alice, s.bob, sample, differ);
    hide Quotient;
    QuotientEnds(params.sampleSize);
  }

  // ----- XorShift64 -----

  const SEED_FOR_ZERO: bv64 := 0x9E37_79B9_7F4A_7C15

  function Seeded(seed: bv64): bv64 {
    if seed == 0 then SEED_FOR_ZERO else seed
  }

  function XorShift(x: bv64): bv64 {
    var a := x ^ (x << 13);
    var b := a ^ (a >> 7);
    b ^ (b << 17)
  }

  function XorShiftState(seed: bv64, n: nat): bv64 {
    if n == 0 then Seeded(seed) else XorShift(XorShiftState(seed, n - 1))
  }

  /** The first words from seed 1, and from seed 0, which stands for the fixed other one. */
  lemma FirstWord()
    ensures XorShiftState(1, 1) == 0x4082_2041
    ensures XorShiftState(0, 0) == 0x9E37_79B9_7F4A_7C15
  {
    assert XorShiftState(1, 0) == 1;
    assert (1 as bv64) ^ ((1 as bv64) << 13) == 0x2001;
    assert (0x2001 as bv64) ^ ((0x2001 as bv64) >> 7) == 0x2041;
    assert (0x2041 as bv64) ^ ((0x2041 as bv64) << 17) == 0x4082_2041;
  }

  lemma LeftShiftZero13(x: bv64)
    ensures x ^ (x << 13) == 0 ==> x == 0
  {
  }

  lemma RightShiftZero7(x: bv64)
    ensures x ^ (x >> 7) == 0 ==> x == 0
  {
  }

  lemma LeftShiftZero17(x: bv64)
    ensures x ^ (x << 17) == 0 ==> x == 0
  {
  }

  lemma XorShiftZero(x: bv64)
    requires XorShift(x) == 0
    ensures x == 0
  {
    var a := x ^ (x << 13);
    var b := a ^ (a >> 7);
    LeftShiftZero17(b);
    RightShiftZero7(a);
    LeftShiftZero13(x);
  }

  /** No seed ever drives the generator into its absorbing all-zero state. */
  lemma {:induction false} XorShiftNeverZero(seed: bv64, n: nat)
    ensures XorShiftState(seed, n) != 0
  {
    if n > 0 {
      XorShiftNeverZero(seed, n - 1);
      if XorShiftState(seed, n) == 0 {
        XorShiftZero(XorShiftState(seed, n - 1));
      }
    }
  }
}
