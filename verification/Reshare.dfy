/**
 Epoch-based share refresh, `src/advanced_secret_sharing.rs`.

 `hash` stands for SHA-256: any function from byte strings to 32 bytes.  Participant names are
 their UTF-8 bytes.
 */
module Reshare {
  import opened Bytes
  import opened PrimeField
  import Shamir

  type Hash = bytes -> bytes

  ghost predicate Is256Bit(hash: Hash) {
    forall x: bytes :: |hash(x)| == 32
  }

  datatype Error = InvalidShareLength | InvalidThreshold | ParticipantMismatch | ProofVerificationFailed

  datatype Result<T> = Ok(value: T) | Err(error: Error)

  datatype ParticipantShare = ParticipantShare(participantId: bytes, share: bytes)

  datatype Plan = Plan(oldThreshold: nat, newThreshold: nat, oldEpoch: u64, newEpoch: u64,
                       refreshed: seq<ParticipantShare>, proof: bytes)

  // ----- Exclusive or -----

  function XorBits(a: nat, b: nat, bits: nat): (x: nat) {
    if bits == 0 then 0
    else (if a % 2 == b % 2 then 0 else 1) + 2 * XorBits(a / 2, b / 2, bits - 1)
  }

  function Capacity(bits: nat): nat {
    if bits == 0 then 1 else 2 * Capacity(bits - 1)
  }

  lemma {:induction false} XorBitsTwice(a: nat, b: nat, bits: nat)
    requires a < Capacity(bits)
    ensures XorBits(a, b, bits) < Capacity(bits)
    ensures XorBits(XorBits(a, b, bits), b, bits) == a
  {
    if bits > 0 {
      XorBitsTwice(a / 2, b / 2, bits - 1);
      var x := XorBits(a, b, bits);
      assert x / 2 == XorBits(a / 2, b / 2, bits - 1);
      assert x % 2 == if a % 2 == b % 2 then 0 else 1;
    }
  }

  function AndBits(a: nat, b: nat, bits: nat): (x: nat)
    ensures x <= a
  {
    if bits == 0 then 0
    else (if a % 2 == 1 && b % 2 == 1 then 1 else 0) + 2 * AndBits(a / 2, b / 2, bits - 1)
  }

  /** Exclusive or is the sum without the bits both have. */
  lemma {:induction false} XorIsSum(a: nat, b: nat, bits: nat)
    requires a < Capacity(bits) && b < Capacity(bits)
    ensures XorBits(a, b, bits) == a + b - 2 * AndBits(a, b, bits)
  {
    if bits > 0 {
      XorIsSum(a / 2, b / 2, bits - 1);
      assert a == 2 * (a / 2) + a % 2 && b == 2 * (b / 2) + b % 2;
    }
  }

  lemma {:induction false} AndNothing(b: nat, bits: nat)
    ensures AndBits(b, 0, bits) == 0 && AndBits(0, b, bits) == 0
  {
    if bits > 0 {
      AndNothing(b / 2, bits - 1);
    }
  }

  /** The lowest bit of a non-zero mask, which the mask has in common with it. */
  lemma {:induction false} LowestBit(m: nat, bits: nat) returns (w: nat)
    requires 0 < m < Capacity(bits)
    ensures bits > 0 && 0 < w <= Capacity(bits - 1) && AndBits(w, m, bits) == w
  {
    if m % 2 == 1 {
      AndNothing(m / 2, bits - 1);
      w := 1;
      assert AndBits(w, m, bits) == 1 + 2 * AndBits(0, m / 2, bits - 1);
    } else {
      var v := LowestBit(m / 2, bits - 1);
      w := 2 * v;
      assert w / 2 == v;
    }
  }

  lemma ByteCapacity()
    ensures Capacity(8) == 0x100
  {
    assert Capacity(4) == 16;
  }

  function Xor(a: u8, b: u8): u8 {
    ByteCapacity();
    XorBitsTwice(a as nat, b as nat, 8);
    XorBits(a as nat, b as nat, 8) as u8
  }

  lemma XorTwice(a: u8, b: u8)
    ensures Xor(Xor(a, b), b) == a
  {
    ByteCapacity();
    XorBitsTwice(a as nat, b as nat, 8);
  }

  function Bit(n: nat, i: nat): nat {
    if i == 0 then n % 2 else Bit(n / 2, i - 1)
  }

  lemma {:induction false} XorBitAt(a: nat, b: nat, bits: nat, i: nat)
    requires i < bits
    ensures Bit(XorBits(a, b, bits), i) == if Bit(a, i) == Bit(b, i) then 0 else 1
  {
    var x := XorBits(a, b, bits);
    assert x % 2 == (if a % 2 == b % 2 then 0 else 1) && x / 2 == XorBits(a / 2, b / 2, bits - 1);
    if i > 0 {
      XorBitAt(a / 2, b / 2, bits - 1, i - 1);
    }
  }

  /** A bit of the result is set exactly when the bits of the arguments differ. */
  lemma XorBit(a: u8, b: u8, i: nat)
    requires i < 8
    ensures Bit(Xor(a, b) as nat, i) == if Bit(a as nat, i) == Bit(b as nat, i) then 0 else 1
  {
    XorBitAt(a as nat, b as nat, 8, i);
  }

  function And(a: u8, b: u8): u8 {
    AndBits(a as nat, b as nat, 8) as u8
  }

  lemma XorShifts(a: u8, b: u8)
    ensures Xor(a, b) as int - a as int == b as int - 2 * And(a, b) as int
  {
    ByteCapacity();
    XorIsSum(a as nat, b as nat, 8);
  }

  function Masked(share: bytes, mask: bytes): (r: bytes)
    requires |share| == |mask|
    ensures |r| == |share|
  {
    seq(|share|, i requires 0 <= i < |share| => Xor(share[i], mask[i]))
  }

  lemma MaskedTwice(share: bytes, mask: bytes)
    requires |share| == |mask|
    ensures Masked(Masked(share, mask), mask) == share
  {
    forall i | 0 <= i < |share|
      ensures Masked(Masked(share, mask), mask)[i] == share[i]
    {
      XorTwice(share[i], mask[i]);
    }
  }

  // ----- Mask material -----

  function SaturatingInc(n: u64): u64 {
    if n == U64_MAX then n else n + 1
  }

  /** A 64-bit counter that sticks at its maximum. */
  function Counter(k: nat): u64 {
    if k == 0 then 0 else SaturatingInc(Counter(k - 1))
  }

  function Word(n: nat): u64 {
    (n % 0x1_0000_0000_0000_0000) as u64
  }

  function Stream(hash: Hash, seed: bytes, epoch: u64, blocks: nat): bytes {
    if blocks == 0 then []
    else
      Stream(hash, seed, epoch, blocks - 1) + hash(seed + Le64(epoch) + Le64(Counter(blocks - 1)))
  }

  function BlocksFor(len: nat): nat {
    (len + 31) / 32
  }

  lemma {:induction false} StreamLength(hash: Hash, seed: bytes, epoch: u64, blocks: nat)
    requires Is256Bit(hash)
    ensures |Stream(hash, seed, epoch, blocks)| == 32 * blocks
  {
    if blocks > 0 {
      StreamLength(hash, seed, epoch, blocks - 1);
    }
  }

  lemma {:induction false} StreamGrows(hash: Hash, seed: bytes, epoch: u64, blocks: nat, more: nat)
    requires Is256Bit(hash) && blocks <= more
    ensures |Stream(hash, seed, epoch, blocks)| <= |Stream(hash, seed, epoch, more)|
    ensures Stream(hash, seed, epoch, more)[..|Stream(hash, seed, epoch, blocks)|] == Stream(hash, seed, epoch, blocks)
    decreases more
  {
    if blocks < more {
      StreamGrows(hash, seed, epoch, blocks, more - 1);
    }
  }

  ghost function Mask(hash: Hash, seed: bytes, epoch: u64, len: nat): (mask: bytes)
    requires Is256Bit(hash)
    ensures |mask| == len
  {
    StreamLength(hash, seed, epoch, BlocksFor(len));
    Stream(hash, seed, epoch, BlocksFor(len))[..len]
  }

  /** Masks are exactly as long as asked, and a shorter mask is the beginning of a longer one. */
  lemma MaskPrefix(hash: Hash, seed: bytes, epoch: u64, len: nat, more: nat)
    requires Is256Bit(hash) && len <= more
    ensures Mask(hash, seed, epoch, more)[..len] == Mask(hash, seed, epoch, len)
  {
    var n, m := BlocksFor(len), BlocksFor(more);
    StreamLength(hash, seed, epoch, n);
    StreamLength(hash, seed, epoch, m);
    StreamGrows(hash, seed, epoch, n, m);
    var short, long := Stream(hash, seed, epoch, n), Stream(hash, seed, epoch, m);
    assert long[..more][..len] == long[..len] == long[..|short|][..len];
  }

  /** The text hashed for block `k` of a mask. */
  function BlockText(seed: bytes, epoch: u64, k: u64): bytes {
    seed + Le64(epoch) + Le64(k)
  }

  lemma {:induction false} CounterCounts(k: nat)
    requires k <= U64_MAX as nat
    ensures Counter(k) as nat == k
  {
    if k > 0 {
      CounterCounts(k - 1);
    }
  }

  lemma {:induction false} StreamByte(hash: Hash, seed: bytes, epoch: u64, blocks: nat, b: nat)
    requires Is256Bit(hash) && b < 32 * blocks && b / 32 <= U64_MAX as nat
    ensures |Stream(hash, seed, epoch, blocks)| == 32 * blocks
    ensures Stream(hash, seed, epoch, blocks)[b] == hash(BlockText(seed, epoch, (b / 32) as u64))[b % 32]
  {
    StreamLength(hash, seed, epoch, blocks);
    StreamLength(hash, seed, epoch, blocks - 1);
    if b < 32 * (blocks - 1) {
      StreamByte(hash, seed, epoch, blocks - 1, b);
    } else {
      assert b / 32 == blocks - 1 && b % 32 == b - 32 * (blocks - 1);
      CounterCounts(blocks - 1);
    }
  }

  /** Byte `b` of a mask is byte b mod 32 of the digest of seed, epoch and block number. */
  lemma MaskSpelled(hash: Hash, seed: bytes, epoch: u64, len: nat, b: nat)
    requires Is256Bit(hash) && b < len && b / 32 <= U64_MAX as nat
    ensures Mask(hash, seed, epoch, len)[b] == hash(seed + Le64(epoch) + Le64((b / 32) as u64))[b % 32]
  {
    StreamByte(hash, seed, epoch, BlocksFor(len), b);
  }

  /** Different epochs or blocks hash different texts under one seed. */
  lemma BlockTextsDiffer(seed: bytes, epoch: u64, k: u64, epoch': u64, k': u64)
    ensures BlockText(seed, epoch, k) == BlockText(seed, epoch', k') <==> epoch == epoch' && k == k'
  {
    var x, y := BlockText(seed, epoch, k), BlockText(seed, epoch', k');
    if x == y {
      SplitTwo(seed + Le64(epoch), seed + Le64(epoch'), Le64(k), Le64(k'));
      SplitTwo(seed, seed, Le64(epoch), Le64(epoch'));
      Le64Injective(k, k');
      Le64Injective(epoch, epoch');
    }
  }

  // ----- The proof -----

  function Names(shares: seq<ParticipantShare>): (names: seq<bytes>)
    ensures |names| == |shares|
  {
    seq(|shares|, i requires 0 <= i < |shares| => shares[i].participantId)
  }

  function Concat(parts: seq<bytes>): bytes {
    if parts == [] then [] else Concat(parts[..|parts| - 1]) + parts[|parts| - 1]
  }

  function Commitment(hash: Hash, share: bytes): bytes {
    hash([0] + share)
  }

  function Committed(hash: Hash, refreshed: seq<ParticipantShare>): bytes {
    if refreshed == [] then []
    else
      var last := refreshed[|refreshed| - 1];
      Committed(hash, refreshed[..|refreshed| - 1]) + last.participantId + Commitment(hash, last.share)
  }

  function Header(oldEpoch: u64, newEpoch: u64, oldThreshold: nat, newThreshold: nat): bytes {
    Le64(oldEpoch) + Le64(newEpoch) + Le64(Word(oldThreshold)) + Le64(Word(newThreshold))
  }

  function Transcript(hash: Hash, oldEpoch: u64, newEpoch: u64, oldThreshold: nat, newThreshold: nat,
                      participants: seq<bytes>, refreshed: seq<ParticipantShare>): bytes
  {
    Header(oldEpoch, newEpoch, oldThreshold, newThreshold) + Concat(participants) + Committed(hash, refreshed)
  }

  method BuildRefreshProof(hash: Hash, oldEpoch: u64, newEpoch: u64, oldThreshold: nat, newThreshold: nat,
                           participants: seq<bytes>, refreshed: seq<ParticipantShare>) returns (proof: bytes)
    ensures proof == hash(Transcript(hash, oldEpoch, newEpoch, oldThreshold, newThreshold, participants, refreshed))
  {
    var fed := Header(oldEpoch, newEpoch, oldThreshold, newThreshold);
    ghost var header := fed;
    for i := 0 to |participants|
      invariant fed == header + Concat(participants[..i])
    {
      assert participants[..i + 1][..i] == participants[..i];
      fed := fed + participants[i];
    }
    assert participants[..|participants|] == participants;
    ghost var names := fed;
    for i := 0 to |refreshed|
      invariant fed == names + Committed(hash, refreshed[..i])
    {
      assert refreshed[..i + 1][..i] == refreshed[..i];
      fed := fed + refreshed[i].participantId + Commitment(hash, refreshed[i].share);
    }
    assert refreshed[..|refreshed|] == refreshed;
    proof := hash(fed);
  }

  function TranscriptOf(hash: Hash, plan: Plan): bytes {
    Transcript(hash, plan.oldEpoch, plan.newEpoch, plan.oldThreshold, plan.newThreshold, Names(plan.refreshed),
               plan.refreshed)
  }

  predicate Verifies(hash: Hash, plan: Plan) {
    plan.proof == hash(TranscriptOf(hash, plan))
  }

  method VerifyResharePlan(hash: Hash, plan: Plan) returns (ok: bool)
    ensures ok <==> Verifies(hash, plan)
  {
    var participants := Names(plan.refreshed);
    var expected := BuildRefreshProof(hash, plan.oldEpoch, plan.newEpoch, plan.oldThreshold, plan.newThreshold,
                                      participants, plan.refreshed);
    return expected == plan.proof;
  }

  // ----- Resharing -----

  predicate ThresholdsFit(oldParties: nat, newParties: nat, oldThreshold: nat, newThreshold: nat) {
    0 < oldThreshold <= oldParties && 0 < newThreshold <= newParties
  }

  function Source(current: seq<ParticipantShare>, idx: nat): bytes
    requires current != []
  {
    current[idx % |current|].share
  }

  function ContextSeed(seed: bytes, participantId: bytes, idx: nat): bytes {
    seed + participantId + Le64(Word(idx))
  }

  ghost function RefreshedShare(hash: Hash, epoch: u64, current: seq<ParticipantShare>, name: bytes, idx: nat,
                                seed: bytes): ParticipantShare
    requires Is256Bit(hash) && current != []
  {
    var source := Source(current, idx);
    ParticipantShare(name, Masked(source, Mask(hash, ContextSeed(seed, name, idx), epoch, |source|)))
  }

  ghost function RefreshedShares(hash: Hash, epoch: u64, current: seq<ParticipantShare>, next: seq<bytes>,
                                 seed: bytes): (r: seq<ParticipantShare>)
    requires Is256Bit(hash) && current != []
    ensures |r| == |next|
  {
    seq(|next|, i requires 0 <= i < |next| => RefreshedShare(hash, epoch, current, next[i], i, seed))
  }

  predicate EmptySource(current: seq<ParticipantShare>, count: nat)
    requires current != []
  {
    exists i :: 0 <= i < count && Source(current, i) == []
  }

  /** Thresholds fit when each is at least 1 and at most the number of its parties. */
  lemma ThresholdsFitIff(oldParties: nat, newParties: nat, oldThreshold: nat, newThreshold: nat)
    ensures !ThresholdsFit(oldParties, newParties, oldThreshold, newThreshold) <==>
            oldThreshold == 0 || oldThreshold > oldParties || newThreshold == 0 || newThreshold > newParties
  {
  }

  /** A resharing stops exactly when some participant of the new roster would get an empty share. */
  lemma EmptySourceIff(current: seq<ParticipantShare>, count: nat)
    requires current != []
    ensures EmptySource(current, count) <==> exists p :: p in current[..if count < |current| then count else |current|] && p.share == []
  {
    var n := if count < |current| then count else |current|;
    if i :| 0 <= i < count && Source(current, i) == [] {
      var j := i % |current|;
      if i < |current| {
        SmallIndex(i, |current|);
      }
      assert j < n && current[..n][j] == current[j];
      assert current[j] in current[..n] && current[j].share == [];
    }
    if p :| p in current[..n] && p.share == [] {
      var i :| 0 <= i < n && current[..n][i] == p;
      SmallIndex(i, |current|);
      assert Source(current, i) == [];
    }
  }

  lemma SmallIndex(i: nat, n: nat)
    requires i < n
    ensures i % n == i
  {
  }

  /** What refreshing a whole roster returns. */
  ghost function Refreshing(hash: Hash, epoch: u64, current: seq<ParticipantShare>, next: seq<bytes>, seed: bytes)
    : Result<seq<ParticipantShare>>
    requires Is256Bit(hash) && current != []
  {
    if EmptySource(current, |next|) then Err(InvalidShareLength)
    else Ok(RefreshedShares(hash, epoch, current, next, seed))
  }

  ghost function MakePlan(hash: Hash, epoch: u64, current: seq<ParticipantShare>, next: seq<bytes>,
                          oldThreshold: nat, newThreshold: nat, seed: bytes): Plan
    requires Is256Bit(hash) && current != []
  {
    var newEpoch := SaturatingInc(epoch);
    var refreshed := RefreshedShares(hash, newEpoch, current, next, seed);
    Plan(oldThreshold, newThreshold, epoch, newEpoch, refreshed,
         hash(Transcript(hash, epoch, newEpoch, oldThreshold, newThreshold, next, refreshed)))
  }

  class ProactiveRefresher {
    const hash: Hash
    var epoch: u64

    constructor (hash: Hash)
      ensures this.hash == hash && epoch == 1
    {
      this.hash, epoch := hash, 1;
    }

    method AdvanceEpoch()
      modifies this
      ensures epoch == SaturatingInc(old(epoch))
      ensures epoch == if old(epoch) == U64_MAX then U64_MAX else old(epoch) + 1
    {
      epoch := SaturatingInc(epoch);
    }

    method MakeMask(seed: bytes, len: nat) returns (mask: bytes)
      requires Is256Bit(hash)
      ensures mask == Mask(hash, seed, epoch, len)
    {
      var output: bytes, counter: u64 := [], 0;
      ghost var k := 0;
      while |output| < len
        invariant counter == Counter(k) && output == Stream(hash, seed, epoch, k)
        invariant |output| == 32 * k && (k > 0 ==> 32 * (k - 1) < len)
        decreases len - |output|
      {
        var block := hash(seed + Le64(epoch) + Le64(counter));
        output := output + block;
        counter := SaturatingInc(counter);
        k := k + 1;
      }
      assert k == BlocksFor(len);
      mask := output[..len];
    }

    method RefreshShare(share: bytes, seed: bytes) returns (r: Result<bytes>)
      requires Is256Bit(hash)
      ensures r == if share == [] then Err(InvalidShareLength)
                   else Ok(Masked(share, Mask(hash, seed, epoch, |share|)))
      ensures share != [] ==> |r.value| == |share|
    {
      if share == [] {
        return Err(InvalidShareLength);
      }
      var mask := MakeMask(seed, |share|);
      return Ok(Masked(share, mask));
    }

    /** The loop over the next participants; an empty source share stops it. */
    method RefreshAll(current: seq<ParticipantShare>, next: seq<bytes>, seed: bytes)
      returns (r: Result<seq<ParticipantShare>>)
      requires Is256Bit(hash) && current != []
      ensures r == Refreshing(hash, epoch, current, next, seed)
    {
      var refreshed: seq<ParticipantShare> := [];
      for idx := 0 to |next|
        invariant |refreshed| == idx
        invariant forall i :: 0 <= i < idx ==> Source(current, i) != []
        invariant forall i :: 0 <= i < idx ==>
          refreshed[i] == RefreshedShare(hash, epoch, current, next[i], i, seed)
      {
        var source := current[idx % |current|].share;
        var nextShare := RefreshShare(source, seed + next[idx] + Le64(Word(idx)));
        if nextShare.Err? {
          assert Source(current, idx) == [];
          return Err(nextShare.error);
        }
        refreshed := refreshed + [ParticipantShare(next[idx], nextShare.value)];
      }
      assert refreshed == RefreshedShares(hash, epoch, current, next, seed);
      return Ok(refreshed);
    }

    /**
     Fails only on bad thresholds or an empty source share; in the second case the epoch has moved
     on already.  The participant and proof checks after the first can never fail.
     */
    method ReshareForParticipants(current: seq<ParticipantShare>, next: seq<bytes>, oldThreshold: nat,
                                  newThreshold: nat, seed: bytes) returns (r: Result<Plan>)
      requires Is256Bit(hash)
      modifies this
      ensures !ThresholdsFit(|current|, |next|, oldThreshold, newThreshold) ==>
        r == Err(InvalidThreshold) && epoch == old(epoch)
      ensures ThresholdsFit(|current|, |next|, oldThreshold, newThreshold) ==>
        epoch == SaturatingInc(old(epoch))
        && r == if EmptySource(current, |next|) then Err(InvalidShareLength)
                else Ok(MakePlan(hash, old(epoch), current, next, oldThreshold, newThreshold, seed))
    {
      if !ThresholdsFit(|current|, |next|, oldThreshold, newThreshold) {
        return Err(InvalidThreshold);
      }
      if current == [] || next == [] {
        return Err(ParticipantMismatch);
      }
      var previousEpoch := epoch;
      AdvanceEpoch();
      var refreshing := RefreshAll(current, next, seed);
      if refreshing.Err? {
        return Err(refreshing.error);
      }
      var refreshed := refreshing.value;
      var proof := BuildRefreshProof(hash, previousEpoch, epoch, oldThreshold, newThreshold, next, refreshed);
      var plan := Plan(oldThreshold, newThreshold, previousEpoch, epoch, refreshed, proof);
      assert Names(refreshed) == next;
      var ok := VerifyResharePlan(hash, plan);
      if !ok {
        return Err(ProofVerificationFailed);
      }
      return Ok(plan);
    }
  }

  // ----- What a plan guarantees -----

  /**
   Every plan handed out verifies, and masking each refreshed share again, at the new epoch and
   with its participant's seed, gives back the share it came from.
   */
  lemma PlanVerifiesAndUnmasks(hash: Hash, epoch: u64, current: seq<ParticipantShare>, next: seq<bytes>,
                               oldThreshold: nat, newThreshold: nat, seed: bytes, i: nat)
    requires Is256Bit(hash) && current != [] && i < |next|
    ensures var plan := MakePlan(hash, epoch, current, next, oldThreshold, newThreshold, seed);
            && Verifies(hash, plan)
            && plan.refreshed[i].participantId == next[i]
            && var share := plan.refreshed[i].share;
               Masked(share, Mask(hash, ContextSeed(seed, next[i], i), plan.newEpoch, |share|)) == Source(current, i)
  {
    var plan := MakePlan(hash, epoch, current, next, oldThreshold, newThreshold, seed);
    assert Names(plan.refreshed) == next;
    var source := Source(current, i);
    MaskedTwice(source, Mask(hash, ContextSeed(seed, next[i], i), plan.newEpoch, |source|));
  }

  /**
   A plan, part by part: the epochs and thresholds it was asked for, and for each new participant in
   turn the share of the old participant at the same place modulo their number, masked byte by byte.
   */
  lemma PlanSpelled(hash: Hash, epoch: u64, current: seq<ParticipantShare>, next: seq<bytes>,
                    oldThreshold: nat, newThreshold: nat, seed: bytes, i: nat, b: nat)
    requires Is256Bit(hash) && current != [] && i < |next| && i <= U64_MAX as nat
    requires b < |current[i % |current|].share| && b / 32 <= U64_MAX as nat
    ensures var plan := MakePlan(hash, epoch, current, next, oldThreshold, newThreshold, seed);
            var share := current[i % |current|].share;
            var newEpoch := if epoch == U64_MAX then U64_MAX else epoch + 1;
            var key := seed + next[i] + Le64(i as u64);
            && plan.oldThreshold == oldThreshold && plan.newThreshold == newThreshold
            && plan.oldEpoch == epoch && plan.newEpoch == newEpoch && |plan.refreshed| == |next|
            && plan.refreshed[i].participantId == next[i] && |plan.refreshed[i].share| == |share|
            && plan.refreshed[i].share[b]
               == Xor(share[b], hash(key + Le64(newEpoch) + Le64((b / 32) as u64))[b % 32])
  {
    hide Mask, Xor;
    var newEpoch := if epoch == U64_MAX then U64_MAX else epoch + 1;
    var share := current[i % |current|].share;
    MaskSpelled(hash, ContextSeed(seed, next[i], i), newEpoch, |share|, b);
    WordOf(i);
  }

  lemma WordOf(i: nat)
    requires i <= U64_MAX as nat
    ensures Word(i) == i as u64
  {
  }

  function Run(parts: seq<bytes>): bytes {
    if parts == [] then [] else parts[0] + Run(parts[1..])
  }

  lemma {:induction false} RunEnd(parts: seq<bytes>)
    requires parts != []
    ensures Run(parts) == Run(parts[..|parts| - 1]) + parts[|parts| - 1]
  {
    if |parts| > 1 {
      RunEnd(parts[1..]);
      assert parts[1..][..|parts| - 2] == parts[..|parts| - 1][1..];
    } else {
      assert parts[1..] == [];
    }
  }

  lemma {:induction false} ConcatIsRun(parts: seq<bytes>)
    ensures Concat(parts) == Run(parts)
  {
    if parts != [] {
      ConcatIsRun(parts[..|parts| - 1]);
      RunEnd(parts);
    }
  }

  /** Each participant followed by the commitment to its share. */
  function Commitments(hash: Hash, refreshed: seq<ParticipantShare>): (parts: seq<bytes>)
    ensures |parts| == |refreshed|
  {
    seq(|refreshed|, i requires 0 <= i < |refreshed| => refreshed[i].participantId + hash([0] + refreshed[i].share))
  }

  lemma {:induction false} CommittedIsRun(hash: Hash, refreshed: seq<ParticipantShare>)
    ensures Committed(hash, refreshed) == Run(Commitments(hash, refreshed))
  {
    if refreshed != [] {
      var n := |refreshed| - 1;
      CommittedIsRun(hash, refreshed[..n]);
      RunEnd(Commitments(hash, refreshed));
      assert Commitments(hash, refreshed)[..n] == Commitments(hash, refreshed[..n]);
    }
  }

  /** What a plan's proof must be: the digest of epochs, thresholds, names, and names with commitments. */
  lemma VerifiesIff(hash: Hash, plan: Plan)
    requires plan.oldThreshold <= U64_MAX as nat && plan.newThreshold <= U64_MAX as nat
    ensures Verifies(hash, plan) <==>
            plan.proof == hash(Le64(plan.oldEpoch) + Le64(plan.newEpoch) + Le64(plan.oldThreshold as u64)
                               + Le64(plan.newThreshold as u64) + Run(Names(plan.refreshed))
                               + Run(Commitments(hash, plan.refreshed)))
  {
    ConcatIsRun(Names(plan.refreshed));
    CommittedIsRun(hash, plan.refreshed);
    WordOf(plan.oldThreshold);
    WordOf(plan.newThreshold);
  }

  predicate Collides(hash: Hash, x: bytes, y: bytes) {
    x != y && hash(x) == hash(y)
  }

  lemma SplitTwo(head: bytes, head': bytes, end: bytes, end': bytes)
    requires |end| == |end'| && head + end == head' + end'
    ensures head == head' && end == end'
  {
    var whole := head + end;
    assert |head| == |head'|;
    assert head == whole[..|head|] && head' == whole[..|head|];
    assert end == whole[|head|..] && end' == whole[|head|..];
  }

  lemma SplitThree(head: bytes, head': bytes, name: bytes, end: bytes, end': bytes)
    requires |end| == |end'| && head + name + end == head' + name + end'
    ensures head == head' && end == end'
  {
    SplitTwo(head + name, head' + name, end, end');
    SplitTwo(head, head', name, name);
  }

  /** The commitments of two shares are digests of colliding texts. */
  predicate CommitmentsCollide(hash: Hash, x: bytes, y: bytes) {
    Collides(hash, [0] + x, [0] + y)
  }

  lemma CommitmentBinds(hash: Hash, x: bytes, y: bytes)
    requires Commitment(hash, x) == Commitment(hash, y)
    ensures x == y || CommitmentsCollide(hash, x, y)
  {
    assert ([0] + x)[1..] == x && ([0] + y)[1..] == y;
  }

  lemma NamesEnd(a: seq<ParticipantShare>, b: seq<ParticipantShare>)
    requires a != [] && Names(a) == Names(b)
    ensures |a| == |b| && Names(a[..|a| - 1]) == Names(b[..|b| - 1])
    ensures a[|a| - 1].participantId == b[|b| - 1].participantId
  {
    assert |Names(a)| == |Names(b)|;
    var n := |a| - 1;
    assert Names(a)[n] == a[n].participantId && Names(b)[n] == b[n].participantId;
    assert Names(a[..n]) == Names(a)[..n] && Names(b[..n]) == Names(b)[..n];
  }

  lemma CommitmentLength(hash: Hash, share: bytes)
    requires Is256Bit(hash)
    ensures |Commitment(hash, share)| == 32
  {
  }

  lemma CommittedUnfolds(hash: Hash, a: seq<ParticipantShare>)
    requires a != []
    ensures var n := |a| - 1;
            Committed(hash, a) == Committed(hash, a[..n]) + a[n].participantId + Commitment(hash, a[n].share)
  {
    hide Commitment;
  }

  /** With equal names and digests of one length a transcript splits at its last share in one way. */
  lemma CommittedEnds(hash: Hash, a: seq<ParticipantShare>, b: seq<ParticipantShare>)
    requires Is256Bit(hash) && a != [] && Names(a) == Names(b) && Committed(hash, a) == Committed(hash, b)
    ensures |a| == |b| && Committed(hash, a[..|a| - 1]) == Committed(hash, b[..|b| - 1])
    ensures Commitment(hash, a[|a| - 1].share) == Commitment(hash, b[|b| - 1].share)
  {
    hide Names, Committed, Commitment;
    NamesEnd(a, b);
    var n := |a| - 1;
    var head, head', name := Committed(hash, a[..n]), Committed(hash, b[..n]), a[n].participantId;
    var end, end' := Commitment(hash, a[n].share), Commitment(hash, b[n].share);
    assert Committed(hash, a) == head + name + end by { CommittedUnfolds(hash, a); }
    assert Committed(hash, b) == head' + name + end' by { CommittedUnfolds(hash, b); }
    CommitmentLength(hash, a[n].share);
    CommitmentLength(hash, b[n].share);
    SplitThree(head, head', name, end, end');
  }

  /** Equal commitments over equal names: the shares are equal, or those of one participant collide. */
  lemma {:induction false} CommittedBinds(hash: Hash, a: seq<ParticipantShare>, b: seq<ParticipantShare>)
    returns (i: nat)
    requires Is256Bit(hash) && Names(a) == Names(b) && Committed(hash, a) == Committed(hash, b)
    ensures a == b || (i < |a| == |b| && CommitmentsCollide(hash, a[i].share, b[i].share))
    decreases |a|
  {
    hide Committed, Commitment, CommitmentsCollide;
    assert |Names(a)| == |Names(b)|;
    if a == [] {
      return 0;
    }
    hide Names;
    var n := |a| - 1;
    NamesEnd(a, b);
    CommittedEnds(hash, a, b);
    CommitmentBinds(hash, a[n].share, b[n].share);
    i := n;
    if a[n].share == b[n].share {
      i := CommittedBinds(hash, a[..n], b[..n]);
      if a[..n] == b[..n] {
        assert a == a[..n] + [a[n]] && b == b[..n] + [b[n]];
      }
    }
  }

  lemma HeaderBinds(oldEpoch: u64, newEpoch: u64, oldThreshold: nat, newThreshold: nat,
                    oldEpoch': u64, newEpoch': u64, oldThreshold': nat, newThreshold': nat)
    requires Header(oldEpoch, newEpoch, oldThreshold, newThreshold)
          == Header(oldEpoch', newEpoch', oldThreshold', newThreshold')
    ensures oldEpoch == oldEpoch' && newEpoch == newEpoch'
    ensures Word(oldThreshold) == Word(oldThreshold') && Word(newThreshold) == Word(newThreshold')
  {
    hide Le64, Word;
    SplitFour(Le64(oldEpoch), Le64(newEpoch), Le64(Word(oldThreshold)), Le64(Word(newThreshold)),
              Le64(oldEpoch'), Le64(newEpoch'), Le64(Word(oldThreshold')), Le64(Word(newThreshold')));
    Le64Injective(oldEpoch, oldEpoch');
    Le64Injective(newEpoch, newEpoch');
    Le64Injective(Word(oldThreshold), Word(oldThreshold'));
    Le64Injective(Word(newThreshold), Word(newThreshold'));
  }

  lemma SplitFour(a: bytes, b: bytes, c: bytes, d: bytes, a': bytes, b': bytes, c': bytes, d': bytes)
    requires |a| == |a'| && |b| == |b'| && |c| == |c'| && |d| == |d'| && a + b + c + d == a' + b' + c' + d'
    ensures a == a' && b == b' && c == c' && d == d'
  {
    SplitTwo(a + b + c, a' + b' + c', d, d');
    SplitTwo(a + b, a' + b', c, c');
    SplitTwo(a, a', b, b');
  }

  /** Equal transcripts start with equal headers, and over the same names carry equal commitments. */
  lemma TranscriptBinds(hash: Hash, plan: Plan, plan': Plan)
    requires TranscriptOf(hash, plan) == TranscriptOf(hash, plan')
    ensures Header(plan.oldEpoch, plan.newEpoch, plan.oldThreshold, plan.newThreshold)
         == Header(plan'.oldEpoch, plan'.newEpoch, plan'.oldThreshold, plan'.newThreshold)
    ensures Names(plan.refreshed) == Names(plan'.refreshed) ==>
      Committed(hash, plan.refreshed) == Committed(hash, plan'.refreshed)
  {
    hide Committed, Concat, Names, Le64, Word;
    var header := Header(plan.oldEpoch, plan.newEpoch, plan.oldThreshold, plan.newThreshold);
    var header' := Header(plan'.oldEpoch, plan'.newEpoch, plan'.oldThreshold, plan'.newThreshold);
    var names, names' := Concat(Names(plan.refreshed)), Concat(Names(plan'.refreshed));
    var rest, rest' := Committed(hash, plan.refreshed), Committed(hash, plan'.refreshed);
    assert |header| == 32 == |header'|;
    assert (header + names + rest)[..32] == header && (header' + names' + rest')[..32] == header';
    if names == names' {
      assert (header + names + rest)[32 + |names|..] == rest && (header' + names + rest')[32 + |names|..] == rest';
    }
  }

  /** What a proof fixes outright: the epochs and the 64-bit words of the thresholds. */
  predicate SameHeader(plan: Plan, plan': Plan) {
    && plan.oldEpoch == plan'.oldEpoch && plan.newEpoch == plan'.newEpoch
    && Word(plan.oldThreshold) == Word(plan'.oldThreshold) && Word(plan.newThreshold) == Word(plan'.newThreshold)
  }

  /**
   A proof binds its plan.  Two verifying plans with one proof have colliding transcripts, or the
   same header and, over the same participant names, the same shares unless the commitments of one
   participant's two shares collide.
   */
  lemma ProofBindsShares(hash: Hash, plan: Plan, plan': Plan) returns (i: nat)
    requires Is256Bit(hash) && Verifies(hash, plan) && Verifies(hash, plan') && plan.proof == plan'.proof
    ensures Collides(hash, TranscriptOf(hash, plan), TranscriptOf(hash, plan')) || SameHeader(plan, plan')
    ensures Collides(hash, TranscriptOf(hash, plan), TranscriptOf(hash, plan'))
         || (Names(plan.refreshed) == Names(plan'.refreshed) ==>
               plan.refreshed == plan'.refreshed
               || (i < |plan.refreshed| == |plan'.refreshed|
                   && CommitmentsCollide(hash, plan.refreshed[i].share, plan'.refreshed[i].share)))
  {
    hide Committed, Header, Names, Word, TranscriptOf, CommitmentsCollide;
    var x, y := TranscriptOf(hash, plan), TranscriptOf(hash, plan');
    i := 0;
    if x == y {
      TranscriptBinds(hash, plan, plan');
      HeaderBinds(plan.oldEpoch, plan.newEpoch, plan.oldThreshold, plan.newThreshold,
                  plan'.oldEpoch, plan'.newEpoch, plan'.oldThreshold, plan'.newThreshold);
      if Names(plan.refreshed) == Names(plan'.refreshed) {
        i := CommittedBinds(hash, plan.refreshed, plan'.refreshed);
      }
    }
  }

  // ----- What a refresh does to a shared secret -----

  /** Shares over GF(251) as participant shares, the names left empty. */
  function Holders(shares: seq<Shamir.Share>): (h: seq<ParticipantShare>)
    ensures |h| == |shares|
  {
    seq(|shares|, i requires 0 <= i < |shares| => ParticipantShare([], shares[i].data))
  }

  /** The same shares after a refresh: indices kept, data replaced. */
  function Replaced(shares: seq<Shamir.Share>, refreshed: seq<ParticipantShare>): (r: seq<Shamir.Share>)
    requires |refreshed| == |shares|
    ensures |r| == |shares|
  {
    seq(|shares|, i requires 0 <= i < |shares| => Shamir.Share(shares[i].index, refreshed[i].share))
  }

  ghost function AfterRefresh(hash: Hash, epoch: u64, shares: seq<Shamir.Share>, next: seq<bytes>, seed: bytes)
    : (r: seq<Shamir.Share>)
    requires Is256Bit(hash) && shares != [] && |next| == |shares|
    ensures |r| == |shares|
  {
    Replaced(shares, RefreshedShares(hash, epoch, Holders(shares), next, seed))
  }

  lemma SourceOfHolder(shares: seq<Shamir.Share>, i: nat)
    requires i < |shares|
    ensures Source(Holders(shares), i) == shares[i].data
  {
  }

  lemma AfterRefreshAt(hash: Hash, epoch: u64, shares: seq<Shamir.Share>, next: seq<bytes>, seed: bytes, i: nat)
    requires Is256Bit(hash) && |next| == |shares| && i < |shares|
    ensures var data := shares[i].data;
            AfterRefresh(hash, epoch, shares, next, seed)[i] ==
              Shamir.Share(shares[i].index, Masked(data, Mask(hash, ContextSeed(seed, next[i], i), epoch, |data|)))
  {
    SourceOfHolder(shares, i);
    var refreshed := RefreshedShares(hash, epoch, Holders(shares), next, seed);
    assert refreshed[i] == RefreshedShare(hash, epoch, Holders(shares), next[i], i, seed);
  }

  /** Byte `b` of participant i's mask, which does not depend on how long the mask is. */
  ghost function MaskByte(hash: Hash, epoch: u64, next: seq<bytes>, seed: bytes, i: nat, b: nat): u8
    requires Is256Bit(hash) && i < |next|
  {
    Mask(hash, ContextSeed(seed, next[i], i), epoch, b + 1)[b]
  }

  lemma MaskByteAt(hash: Hash, epoch: u64, next: seq<bytes>, seed: bytes, i: nat, b: nat, len: nat)
    requires Is256Bit(hash) && i < |next| && b < len
    ensures Mask(hash, ContextSeed(seed, next[i], i), epoch, len)[b] == MaskByte(hash, epoch, next, seed, i, b)
  {
    MaskPrefix(hash, ContextSeed(seed, next[i], i), epoch, b + 1, len);
  }

  /** What the masks add to byte `b` of each share, as integers: the mask less twice its common bits. */
  ghost function Added(hash: Hash, epoch: u64, shares: seq<Shamir.Share>, next: seq<bytes>, seed: bytes, b: nat)
    : (d: seq<int>)
    requires Is256Bit(hash) && |next| == |shares| && Shamir.ReachesByte(shares, b)
    ensures |d| == |shares|
  {
    seq(|shares|, i requires 0 <= i < |shares| =>
      var m := MaskByte(hash, epoch, next, seed, i, b);
      m as int - 2 * And(shares[i].data[b], m) as int)
  }

  predicate SameShape(after: seq<Shamir.Share>, shares: seq<Shamir.Share>) {
    && |after| == |shares|
    && forall i :: 0 <= i < |shares| ==> after[i].index == shares[i].index && |after[i].data| == |shares[i].data|
  }

  lemma RefreshShape(hash: Hash, epoch: u64, shares: seq<Shamir.Share>, next: seq<bytes>, seed: bytes)
    requires Is256Bit(hash) && shares != [] && |next| == |shares|
    ensures SameShape(AfterRefresh(hash, epoch, shares, next, seed), shares)
  {
    forall i | 0 <= i < |shares|
      ensures var after := AfterRefresh(hash, epoch, shares, next, seed);
              after[i].index == shares[i].index && |after[i].data| == |shares[i].data|
    {
      AfterRefreshAt(hash, epoch, shares, next, seed, i);
    }
  }

  lemma RefreshAddsAt(hash: Hash, epoch: u64, shares: seq<Shamir.Share>, next: seq<bytes>, seed: bytes, b: nat, i: nat)
    requires Is256Bit(hash) && |next| == |shares| && Shamir.ReachesByte(shares, b) && i < |shares|
    ensures var data := AfterRefresh(hash, epoch, shares, next, seed)[i].data;
            b < |data| && data[b] as int - shares[i].data[b] as int == Added(hash, epoch, shares, next, seed, b)[i]
  {
    AfterRefreshAt(hash, epoch, shares, next, seed, i);
    var data, m := shares[i].data, MaskByte(hash, epoch, next, seed, i, b);
    var mask := Mask(hash, ContextSeed(seed, next[i], i), epoch, |data|);
    MaskByteAt(hash, epoch, next, seed, i, b, |data|);
    assert Masked(data, mask)[b] == Xor(data[b], mask[b]);
    XorShifts(data[b], m);
  }

  lemma RefreshAdds(hash: Hash, epoch: u64, shares: seq<Shamir.Share>, next: seq<bytes>, seed: bytes, b: nat)
    requires Is256Bit(hash) && shares != [] && |next| == |shares| && Shamir.ReachesByte(shares, b)
    ensures var after := AfterRefresh(hash, epoch, shares, next, seed);
            Shamir.ReachesByte(after, b)
            && Difference(Shamir.Column(after, b), Shamir.Column(shares, b))
               == Added(hash, epoch, shares, next, seed, b)
  {
    hide AfterRefresh, Added;
    var after := AfterRefresh(hash, epoch, shares, next, seed);
    forall i | 0 <= i < |shares|
      ensures b < |after[i].data|
      ensures after[i].data[b] as int - shares[i].data[b] as int == Added(hash, epoch, shares, next, seed, b)[i]
    {
      RefreshAddsAt(hash, epoch, shares, next, seed, b, i);
    }
  }

  /** Whether what the masks add at byte `b` is itself a sharing of zero. */
  ghost predicate AddsZero(hash: Hash, epoch: u64, shares: seq<Shamir.Share>, next: seq<bytes>, seed: bytes, b: nat)
    requires Is256Bit(hash) && |next| == |shares| && Shamir.ReachesByte(shares, b)
  {
    Interpolate(251, Shamir.Indices(shares), Added(hash, epoch, shares, next, seed, b)) == 0
  }

  predicate Reaching(shares: seq<Shamir.Share>) {
    shares != [] && forall i :: 0 <= i < |shares| ==> |shares[0].data| <= |shares[i].data|
  }

  /**
   A refresh leaves the shared secret alone exactly when what the masks add to the shares, known
   from the shares and the masks before anything is refreshed, is at every byte a sharing of zero.
   */
  lemma RefreshKeepsSecretIff(hash: Hash, epoch: u64, shares: seq<Shamir.Share>, next: seq<bytes>, seed: bytes)
    requires Is256Bit(hash) && |next| == |shares| && Reaching(shares)
    ensures var after := AfterRefresh(hash, epoch, shares, next, seed);
            Reaching(after) && (Shamir.Reconstructed(after) == Shamir.Reconstructed(shares) <==>
            forall b :: 0 <= b < |shares[0].data| ==> AddsZero(hash, epoch, shares, next, seed, b))
  {
    var after, xs := AfterRefresh(hash, epoch, shares, next, seed), Shamir.Indices(shares);
    RefreshShape(hash, epoch, shares, next, seed);
    forall b | 0 <= b < |shares[0].data|
      ensures Shamir.Reconstructed(after)[b] == Shamir.Reconstructed(shares)[b] <==>
              AddsZero(hash, epoch, shares, next, seed, b)
    {
      RefreshAdds(hash, epoch, shares, next, seed, b);
      assert Shamir.Indices(after) == xs;
      InterpolateDifference(251, xs, Shamir.Column(after, b), Shamir.Column(shares, b));
    }
  }

  // ----- Masks that keep every secret -----

  /** Indices as `split` gives them out: distinct and non-zero modulo 251. */
  ghost predicate Proper(indices: seq<u8>) {
    var xs := seq(|indices|, i requires 0 <= i < |indices| => indices[i] as int);
    indices != [] && DistinctMod(251, xs) && forall i :: 0 <= i < |xs| ==> !Divides(251, xs[i])
  }

  /** Field elements held under the given indices: a sharing of whatever they interpolate to. */
  predicate SharingOver(shares: seq<Shamir.Share>, indices: seq<u8>, len: nat) {
    && |shares| == |indices|
    && (forall i :: 0 <= i < |shares| ==> shares[i].index == indices[i] && |shares[i].data| == len)
    && forall i, b :: 0 <= i < |shares| && 0 <= b < len ==> shares[i].data[b] < 251
  }

  ghost predicate RefreshKeeps(hash: Hash, epoch: u64, shares: seq<Shamir.Share>, next: seq<bytes>, seed: bytes)
    requires Is256Bit(hash) && |next| == |shares| && Reaching(shares)
  {
    RefreshKeepsSecretIff(hash, epoch, shares, next, seed);
    Shamir.Reconstructed(AfterRefresh(hash, epoch, shares, next, seed)) == Shamir.Reconstructed(shares)
  }

  function ZeroData(len: nat): (data: bytes)
    ensures |data| == len
  {
    seq(len, b => 0)
  }

  function SpikedShare(index: u8, len: nat, b: nat, w: u8): (share: Shamir.Share)
    requires b < len && w < 251
    ensures share.index == index && |share.data| == len && share.data[b] == w
    ensures forall c :: 0 <= c < len ==> share.data[c] < 251
  {
    Shamir.Share(index, ZeroData(len)[b := w])
  }

  /** All data zero, but for byte `b` of share `i`. */
  function Spiked(indices: seq<u8>, len: nat, i: nat, b: nat, w: u8): (shares: seq<Shamir.Share>)
    requires b < len && w < 251
    ensures |shares| == |indices|
  {
    seq(|indices|, k requires 0 <= k < |indices| => SpikedShare(indices[k], len, b, if k == i then w else 0))
  }

  lemma SpikedIsSharing(indices: seq<u8>, len: nat, i: nat, b: nat, w: u8)
    requires b < len && w < 251
    ensures SharingOver(Spiked(indices, len, i, b, w), indices, len)
  {
    var shares := Spiked(indices, len, i, b, w);
    forall k | 0 <= k < |shares|
      ensures shares[k].index == indices[k] && |shares[k].data| == len
      ensures forall c :: 0 <= c < len ==> shares[k].data[c] < 251
    {
      assert shares[k] == SpikedShare(indices[k], len, b, if k == i then w else 0);
    }
  }

  /**
   A mask byte that is not zero changes the secret of some sharing.  Two sharings that differ by the
   byte's lowest bit in one place are moved by different amounts, so one of them is moved.
   */
  lemma RefreshChangesSecret(hash: Hash, epoch: u64, indices: seq<u8>, next: seq<bytes>, seed: bytes, len: nat,
                             i: nat, b: nat) returns (shares: seq<Shamir.Share>)
    requires Is256Bit(hash) && Proper(indices) && |next| == |indices| && i < |next| && b < len
    requires MaskByte(hash, epoch, next, seed, i, b) != 0
    ensures SharingOver(shares, indices, len) && Reaching(shares)
    ensures !RefreshKeeps(hash, epoch, shares, next, seed)
  {
    var m := MaskByte(hash, epoch, next, seed, i, b);
    ByteCapacity();
    var w := LowestBit(m as nat, 8);
    assert Capacity(7) == 128;
    var none, some := Spiked(indices, len, i, b, 0), Spiked(indices, len, i, b, w as u8);
    SpikedIsSharing(indices, len, i, b, 0);
    SpikedIsSharing(indices, len, i, b, w as u8);
    MovedApart(hash, epoch, indices, next, seed, len, i, b, w as u8);
    RefreshKeepsSecretIff(hash, epoch, none, next, seed);
    RefreshKeepsSecretIff(hash, epoch, some, next, seed);
    shares := if AddsZero(hash, epoch, none, next, seed, b) then some else none;
  }

  lemma AndWithZero(share: u8)
    ensures And(share, 0) == 0
  {
    AndNothing(share as nat, 8);
  }

  lemma AndZero(m: u8)
    ensures And(0, m) == 0
  {
    AndNothing(m as nat, 8);
  }

  /** What the masks add to a spiked sharing at its byte. */
  lemma AddedToSpike(hash: Hash, epoch: u64, indices: seq<u8>, next: seq<bytes>, seed: bytes, len: nat,
                     i: nat, b: nat, w: u8, k: nat)
    requires Is256Bit(hash) && |next| == |indices| && k < |next| && b < len && w < 251
    ensures var shares := Spiked(indices, len, i, b, w);
            var m := MaskByte(hash, epoch, next, seed, k, b);
            Shamir.ReachesByte(shares, b) && shares[k].index == indices[k] &&
            Added(hash, epoch, shares, next, seed, b)[k] == m as int - if k == i then 2 * And(w, m) as int else 0
  {
    SpikedIsSharing(indices, len, i, b, w);
    AndNothing(MaskByte(hash, epoch, next, seed, k, b) as nat, 8);
    assert Spiked(indices, len, i, b, w)[k] == SpikedShare(indices[k], len, b, if k == i then w else 0);
  }

  lemma MovedApart(hash: Hash, epoch: u64, indices: seq<u8>, next: seq<bytes>, seed: bytes, len: nat,
                   i: nat, b: nat, w: u8)
    requires Is256Bit(hash) && Proper(indices) && |next| == |indices| && i < |next| && b < len
    requires 0 < w <= 128 && And(w, MaskByte(hash, epoch, next, seed, i, b)) == w
    ensures var none, some := Spiked(indices, len, i, b, 0), Spiked(indices, len, i, b, w);
            Shamir.ReachesByte(none, b) && Shamir.ReachesByte(some, b) &&
            !(AddsZero(hash, epoch, none, next, seed, b) && AddsZero(hash, epoch, some, next, seed, b))
  {
    hide Spiked, SpikedShare, MaskByte, And, Interpolate, Added;
    var none, some := Spiked(indices, len, i, b, 0), Spiked(indices, len, i, b, w);
    SpikedIsSharing(indices, len, i, b, 0);
    SpikedIsSharing(indices, len, i, b, w);
    var ys, zs := Added(hash, epoch, none, next, seed, b), Added(hash, epoch, some, next, seed, b);
    var xs := Shamir.Indices(none);
    assert xs == Shamir.Indices(some) == seq(|indices|, k requires 0 <= k < |indices| => indices[k] as int);
    forall k | 0 <= k < |indices|
      ensures ys[k] - zs[k] == if k == i then 2 * w as int else 0
    {
      AddedToSpike(hash, epoch, indices, next, seed, len, i, b, 0, k);
      AddedToSpike(hash, epoch, indices, next, seed, len, i, b, w, k);
      AndZero(MaskByte(hash, epoch, next, seed, k, b));
    }
    TwiceSmall(w as int);
    OneOrdinateDecides(251, xs, ys, zs, i);
  }

  lemma TwiceSmall(w: int)
    requires 0 < w <= 128
    ensures IsPrime(251) && !Divides(251, 2 * w) && !Divides(251, -(2 * w))
  {
    Shamir.PrimeIsPrime();
    NotDividesSmall(251, 2);
    NotDividesSmall(251, w);
    NoZeroDivisors(251, 2, w);
    if Divides(251, -(2 * w)) {
      DividesProduct(251, -(2 * w), -1);
    }
  }

  lemma {:induction false} ZeroSum(p: int, xs: seq<int>, ys: seq<int>, m: nat)
    requires 2 <= p && m <= |xs| == |ys| && forall k :: 0 <= k < |ys| ==> ys[k] == 0
    ensures LagrangeSum(p, xs, ys, m, 0) == 0
  {
    if m > 0 {
      ZeroSum(p, xs, ys, m - 1);
      ZeroTimes(Coefficient(p, xs, m - 1, 0));
    }
  }

  lemma ZeroMasksKeep(hash: Hash, epoch: u64, shares: seq<Shamir.Share>, next: seq<bytes>, seed: bytes)
    requires Is256Bit(hash) && |next| == |shares| && Reaching(shares)
    requires forall i, b :: 0 <= i < |next| && 0 <= b < |shares[0].data| ==> MaskByte(hash, epoch, next, seed, i, b) == 0
    ensures RefreshKeeps(hash, epoch, shares, next, seed)
  {
    hide MaskByte, And, Coefficient, AfterRefresh;
    RefreshKeepsSecretIff(hash, epoch, shares, next, seed);
    forall b | 0 <= b < |shares[0].data|
      ensures AddsZero(hash, epoch, shares, next, seed, b)
    {
      var xs, ys := Shamir.Indices(shares), Added(hash, epoch, shares, next, seed, b);
      forall i | 0 <= i < |shares|
        ensures ys[i] == 0
      {
        AndWithZero(shares[i].data[b]);
      }
      ZeroSum(251, xs, ys, |xs|);
    }
  }

  /** A refresh keeps the secret of every sharing if and only if its masks are zero throughout. */
  lemma RefreshKeepsEverySecretIff(hash: Hash, epoch: u64, indices: seq<u8>, next: seq<bytes>, seed: bytes, len: nat)
    requires Is256Bit(hash) && Proper(indices) && |next| == |indices|
    ensures (forall shares :: SharingOver(shares, indices, len) && Reaching(shares) ==>
               RefreshKeeps(hash, epoch, shares, next, seed))
       <==> forall i, b :: 0 <= i < |next| && 0 <= b < len ==> MaskByte(hash, epoch, next, seed, i, b) == 0
  {
    if i, b :| 0 <= i < |next| && 0 <= b < len && MaskByte(hash, epoch, next, seed, i, b) != 0 {
      var shares := RefreshChangesSecret(hash, epoch, indices, next, seed, len, i, b);
    } else {
      forall shares | SharingOver(shares, indices, len) && Reaching(shares)
        ensures RefreshKeeps(hash, epoch, shares, next, seed)
      {
        ZeroMasksKeep(hash, epoch, shares, next, seed);
      }
    }
  }
}
