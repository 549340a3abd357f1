/**
 Threshold sharing of a key among agents over a large prime field,
 `abir_guard/multi_agent_key_sharing.py`.

 The prime is a parameter `p`; the program fixes it to 2^521 - 1.  Random coefficients are an
 argument and raised exceptions are results.
 */
module AgentKeySharing {
  import opened Bytes
  import opened PrimeField

  datatype Error = InsufficientQuorum | AgentCountMismatch | IntTooBig

  datatype Result<T> = Ok(value: T) | Err(error: Error)

  datatype QuorumPolicy = QuorumPolicy(threshold: nat, totalAgents: nat) {
    /** What the constructor of `MultiAgentKeySharing` insists on. */
    predicate Valid() {
      2 <= threshold <= totalAgents
    }
  }

  datatype AgentShare = AgentShare(agentId: string, x: int, y: int)

  // ----- Big-endian integers -----

  function ToInt(s: bytes): nat {
    if s == [] then 0 else 0x100 * ToInt(s[..|s| - 1]) + s[|s| - 1] as int
  }

  function Capacity(length: nat): nat
    ensures Capacity(length) > 0
  {
    if length == 0 then 1 else 0x100 * Capacity(length - 1)
  }

  function ToBytes(value: nat, length: nat): (s: bytes)
    requires value < Capacity(length)
    ensures |s| == length
  {
    if length == 0 then [] else ToBytes(value / 0x100, length - 1) + [(value % 0x100) as u8]
  }

  lemma {:induction false} ToIntBound(s: bytes)
    ensures ToInt(s) < Capacity(|s|)
  {
    if s != [] {
      ToIntBound(s[..|s| - 1]);
    }
  }

  /** The first byte is the most significant: appending bytes multiplies what is there. */
  lemma {:induction false} BigEndian(s: bytes, t: bytes)
    ensures ToInt(s + t) == ToInt(s) * Capacity(|t|) + ToInt(t)
    decreases |t|
  {
    if t == [] {
      assert s + t == s;
    } else {
      var init, last := t[..|t| - 1], t[|t| - 1];
      BigEndian(s, init);
      assert (s + t)[..|s + t| - 1] == s + init;
      assert 0x100 * (ToInt(s) * Capacity(|init|)) == ToInt(s) * (0x100 * Capacity(|init|));
    }
  }

  /** Bytes survive the trip through an integer, leading zeros included. */
  lemma {:induction false} BytesRoundTrip(s: bytes)
    ensures ToInt(s) < Capacity(|s|) && ToBytes(ToInt(s), |s|) == s
  {
    ToIntBound(s);
    if s != [] {
      var init, last := s[..|s| - 1], s[|s| - 1];
      BytesRoundTrip(init);
      assert ToInt(s) / 0x100 == ToInt(init) && ToInt(s) % 0x100 == last as int;
      assert init + [last] == s;
    }
  }

  lemma {:induction false} IntRoundTrip(value: nat, length: nat)
    requires value < Capacity(length)
    ensures ToInt(ToBytes(value, length)) == value
  {
    if length > 0 {
      IntRoundTrip(value / 0x100, length - 1);
      var s := ToBytes(value, length);
      assert s[..|s| - 1] == ToBytes(value / 0x100, length - 1);
    }
  }

  // ----- Split -----

  /** `random` holds the draws of `secrets.randbelow(PRIME - 1)`. */
  predicate RandomFits(p: int, policy: QuorumPolicy, random: seq<int>) {
    |random| + 1 == policy.threshold && forall i :: 0 <= i < |random| ==> 0 <= random[i] < p - 1
  }

  function Coeffs(secret: bytes, random: seq<int>): (c: Poly)
    ensures |c| == |random| + 1
  {
    [ToInt(secret)] + seq(|random|, i requires 0 <= i < |random| => random[i] + 1)
  }

  function SplitShares(p: int, c: Poly, ids: seq<string>): (shares: seq<AgentShare>)
    requires 2 <= p
    ensures |shares| == |ids|
  {
    seq(|ids|, k requires 0 <= k < |ids| => AgentShare(ids[k], k + 1, Eval(c, k + 1) % p))
  }

  /** Share `k` is the point of `c` at `k + 1`. */
  ghost predicate SharesOf(p: int, c: Poly, split: seq<AgentShare>) {
    && (forall k :: 0 <= k < |split| ==> split[k].x == k + 1)
    && PointsOn(p, c, Xs(split), Ys(split))
  }

  lemma SplitSharesOf(p: int, c: Poly, ids: seq<string>)
    requires 2 <= p
    ensures SharesOf(p, c, SplitShares(p, c, ids))
  {
    var split := SplitShares(p, c, ids);
    forall k | 0 <= k < |split|
      ensures Divides(p, Ys(split)[k] - Eval(c, Xs(split)[k]))
    {
      ModCongruent(p, Eval(c, k + 1));
    }
  }

  method Split(p: int, policy: QuorumPolicy, secret: bytes, ids: seq<string>, random: seq<int>)
    returns (r: Result<seq<AgentShare>>)
    requires 2 <= p && policy.Valid() && RandomFits(p, policy, random)
    ensures r == if |ids| == policy.totalAgents
                 then Ok(SplitShares(p, Coeffs(secret, random), ids)) else Err(AgentCountMismatch)
    // Agent k holds the point at k + 1 of the polynomial: the secret first, then each draw plus one.
    ensures r.Ok? ==> |r.value| == |ids| && forall k :: 0 <= k < |ids| ==>
      && r.value[k].agentId == ids[k] && r.value[k].x == k + 1
      && r.value[k].y == Eval([ToInt(secret)] + seq(|random|, i requires 0 <= i < |random| => random[i] + 1), k + 1) % p
  {
    if |ids| != policy.totalAgents {
      return Err(AgentCountMismatch);
    }
    var coeffs := Coeffs(secret, random);
    var shares: seq<AgentShare> := [];
    for k := 0 to |ids|
      invariant shares == SplitShares(p, coeffs, ids)[..k]
    {
      var y := EvalAt(p, coeffs, k + 1);
      shares := shares + [AgentShare(ids[k], k + 1, y)];
    }
    assert shares == SplitShares(p, coeffs, ids);
    r := Ok(shares);
  }

  method EvalAt(p: int, coeffs: Poly, x: int) returns (y: int)
    requires 2 <= p
    ensures y == Eval(coeffs, x) % p
  {
    y := 0;
    DividesMultiple(p, 0);
    for power := 0 to |coeffs|
      invariant 0 <= y < p && Divides(p, y - Eval(coeffs[..power], x))
    {
      PartialSumStep(p, coeffs, power, x, y);
      y := (y + coeffs[power] * (Pow(x, power) % p)) % p;
    }
    assert coeffs[..|coeffs|] == coeffs;
    Reduced(p, y, Eval(coeffs, x));
  }

  lemma PartialSumStep(p: int, c: Poly, k: nat, x: int, y: int)
    requires 2 <= p && k < |c| && Divides(p, y - Eval(c[..k], x))
    ensures Divides(p, (y + c[k] * (Pow(x, k) % p)) % p - Eval(c[..k + 1], x))
  {
    var w := Pow(x, k);
    EvalSplit(c[..k + 1], k, x);
    assert c[..k + 1][..k] == c[..k] && c[..k + 1][k..] == [c[k]];
    assert Eval([c[k]], x) == c[k] + x * Eval([], x) == c[k];
    ModCongruent(p, w);
    CongruentScale(p, w % p, w, c[k]);
    TermTotal(p, y, Eval(c[..k], x), c[k] * (w % p), c[k] * w);
    assert w * c[k] == c[k] * w;
  }

  /** One reduced addition of congruent parts. */
  lemma TermTotal(p: int, y: int, sum: int, term: int, exact: int)
    requires 0 < p && Divides(p, y - sum) && Divides(p, term - exact)
    ensures Divides(p, (y + term) % p - (sum + exact))
  {
    ModCongruent(p, y + term);
    DividesTotal(p, y - sum, term - exact, y + term - (sum + exact));
    DividesTotal(p, (y + term) % p - (y + term), y + term - (sum + exact), (y + term) % p - (sum + exact));
  }

  // ----- Recover -----

  function Xs(shares: seq<AgentShare>): (xs: seq<int>)
    ensures |xs| == |shares|
  {
    seq(|shares|, i requires 0 <= i < |shares| => shares[i].x)
  }

  function Ys(shares: seq<AgentShare>): (ys: seq<int>)
    ensures |ys| == |shares|
  {
    seq(|shares|, i requires 0 <= i < |shares| => shares[i].y)
  }

  function Encoded(value: nat, length: nat): Result<bytes> {
    if value < Capacity(length) then Ok(ToBytes(value, length)) else Err(IntTooBig)
  }

  function Recovered(p: int, policy: QuorumPolicy, shares: seq<AgentShare>, outputLen: nat): Result<bytes>
    requires 2 <= p
  {
    if |shares| < policy.threshold then Err(InsufficientQuorum)
    else
      var subset := shares[..policy.threshold];
      Encoded(Interpolate(p, Xs(subset), Ys(subset)), outputLen)
  }

  method Recover(p: int, policy: QuorumPolicy, shares: seq<AgentShare>, outputLen: nat) returns (r: Result<bytes>)
    requires 2 <= p && policy.Valid()
    ensures r == Recovered(p, policy, shares, outputLen)
    ensures r == Err(InsufficientQuorum) <==> |shares| < policy.threshold
    // Otherwise the result is the interpolated integer in `outputLen` bytes, if it fits.
    ensures |shares| >= policy.threshold ==>
      var value := Interpolate(p, Xs(shares[..policy.threshold]), Ys(shares[..policy.threshold]));
      && (r == Err(IntTooBig) <==> value >= Capacity(outputLen))
      && (r.Ok? ==> |r.value| == outputLen && ToInt(r.value) == value)
  {
    if |shares| < policy.threshold {
      return Err(InsufficientQuorum);
    }
    var subset := shares[..policy.threshold];
    ghost var xs, ys := Xs(subset), Ys(subset);
    var secret := 0;
    DividesMultiple(p, 0);
    for i := 0 to |subset|
      invariant 0 <= secret < p && Divides(p, secret - LagrangeSum(p, xs, ys, i, 0))
    {
      var lagrange := LagrangeCoefficient(p, subset, i);
      ghost var exact := Coefficient(p, xs, i, 0);
      CongruentScale(p, lagrange, exact, subset[i].y);
      TermTotal(p, secret, LagrangeSum(p, xs, ys, i, 0), subset[i].y * lagrange, exact * ys[i]);
      secret := (secret + subset[i].y * lagrange) % p;
    }
    Reduced(p, secret, LagrangeSum(p, xs, ys, |xs|, 0));
    r := Encoded(secret, outputLen);
    if secret < Capacity(outputLen) {
      IntRoundTrip(secret, outputLen);
    }
  }

  method LagrangeCoefficient(p: int, subset: seq<AgentShare>, i: nat) returns (lagrange: int)
    requires 2 <= p && i < |subset|
    ensures Divides(p, lagrange - Coefficient(p, Xs(subset), i, 0))
  {
    ghost var xs := Xs(subset);
    var num, den := 1, 1;
    RunningStart(p, xs, i, 0);
    RunningStart(p, xs, i, xs[i]);
    for j := 0 to |subset|
      invariant Running(p, xs, i, j, num, 0)
      invariant Running(p, xs, i, j, den, xs[i])
    {
      if i != j {
        ghost var num0, den0 := num, den;
        num := MulMod(p, num, -subset[j].x);
        den := MulMod(p, den, subset[i].x - subset[j].x);
        DividesMultiple(p, 0);
        RunningTurn(p, xs, i, j, num0, num, -xs[j], 0);
        RunningTurn(p, xs, i, j, den0, den, xs[i] - xs[j], xs[i]);
      } else {
        RunningSkip(p, xs, i, num, 0);
        RunningSkip(p, xs, i, den, xs[i]);
      }
    }
    RunningEnd(p, xs, i, num, 0);
    RunningEnd(p, xs, i, den, xs[i]);
    var inverse := Pow(den, p - 2) % p;
    lagrange := MulMod(p, num, inverse);
    CoefficientCongruent(p, num, ProdDiff(Others(xs, i), 0), den, ProdDiff(Others(xs, i), xs[i]),
                         inverse, lagrange);
  }

  method MulMod(p: int, a: int, b: int) returns (r: int)
    requires 0 < p
    ensures 0 <= r < p && Divides(p, r - a * b)
  {
    r := (a * b) % p;
    ModCongruent(p, a * b);
  }

  // ----- The quorum law -----

  /** The first `threshold` shares handed in come from the split, at different points. */
  ghost predicate Quorum(p: int, policy: QuorumPolicy, split: seq<AgentShare>, given: seq<AgentShare>, pick: seq<int>) {
    && |pick| == policy.threshold <= |given|
    && (forall i :: 0 <= i < |pick| ==> 0 <= pick[i] < |split| && given[i] == split[pick[i]])
    && DistinctMod(p, pick)
  }

  lemma QuorumPoints(p: int, policy: QuorumPolicy, c: Poly, split: seq<AgentShare>, given: seq<AgentShare>,
                     pick: seq<int>)
    requires SharesOf(p, c, split) && Quorum(p, policy, split, given, pick)
    ensures var subset := given[..policy.threshold];
            DistinctMod(p, Xs(subset)) && PointsOn(p, c, Xs(subset), Ys(subset))
  {
    var xs := Xs(given[..policy.threshold]);
    forall i | 0 <= i < |xs|
      ensures xs[i] == pick[i] + 1 && Divides(p, Ys(given[..policy.threshold])[i] - Eval(c, xs[i]))
    {
      assert given[i] == split[pick[i]];
      assert Divides(p, Ys(split)[pick[i]] - Eval(c, Xs(split)[pick[i]]));
    }
    forall i, j | 0 <= i < j < |xs|
      ensures !Divides(p, xs[j] - xs[i])
    {
      assert xs[j] - xs[i] == pick[j] - pick[i] && !Divides(p, pick[j] - pick[i]);
    }
  }

  /**
   Recovery from any quorum yields the encoded secret modulo the prime, whatever the order of the
   shares and whatever follows the first `threshold` of them.
   */
  lemma QuorumInterpolates(p: int, policy: QuorumPolicy, secret: bytes, ids: seq<string>, random: seq<int>,
                           given: seq<AgentShare>, pick: seq<int>)
    requires IsPrime(p) && policy.Valid() && RandomFits(p, policy, random) && |ids| == policy.totalAgents
    requires Quorum(p, policy, SplitShares(p, Coeffs(secret, random), ids), given, pick)
    ensures Interpolate(p, Xs(given[..policy.threshold]), Ys(given[..policy.threshold])) == ToInt(secret) % p
  {
    var c := Coeffs(secret, random);
    SplitSharesOf(p, c, ids);
    QuorumPoints(p, policy, c, SplitShares(p, c, ids), given, pick);
    EnoughPoints(p, c, Xs(given[..policy.threshold]), Ys(given[..policy.threshold]));
  }

  lemma BelowIffUnchanged(p: int, n: nat)
    requires 0 < p
    ensures 0 <= n % p <= n && (n % p == n <==> n < p)
  {
    if n < p {
      ModUnique(n, p, 0, n);
    }
  }

  /** Of all the integers a secret's length can hold only its own encodes as the secret. */
  lemma EncodedMatches(secret: bytes, value: nat)
    requires value <= ToInt(secret)
    ensures Encoded(value, |secret|) == Ok(secret) <==> value == ToInt(secret)
  {
    BytesRoundTrip(secret);
    IntRoundTrip(value, |secret|);
  }

  lemma RecoveredMatches(p: int, policy: QuorumPolicy, given: seq<AgentShare>, secret: bytes)
    requires 2 <= p && policy.threshold <= |given|
    requires Interpolate(p, Xs(given[..policy.threshold]), Ys(given[..policy.threshold])) == ToInt(secret) % p
    ensures Recovered(p, policy, given, |secret|) == Ok(secret) <==> ToInt(secret) < p
  {
    var value := Interpolate(p, Xs(given[..policy.threshold]), Ys(given[..policy.threshold]));
    BelowIffUnchanged(p, ToInt(secret));
    EncodedMatches(secret, value);
  }

  /**
   A quorum gets the exact bytes back, leading zeros included, if and only if the secret, read as
   an integer, is below the prime: nothing checks that when the secret is split.
   */
  lemma QuorumRecoversIff(p: int, policy: QuorumPolicy, secret: bytes, ids: seq<string>, random: seq<int>,
                          given: seq<AgentShare>, pick: seq<int>)
    requires IsPrime(p) && policy.Valid() && RandomFits(p, policy, random) && |ids| == policy.totalAgents
    requires Quorum(p, policy, SplitShares(p, Coeffs(secret, random), ids), given, pick)
    ensures Recovered(p, policy, given, |secret|) == Ok(secret) <==> ToInt(secret) < p
  {
    QuorumInterpolates(p, policy, secret, ids, random, given, pick);
    RecoveredMatches(p, policy, given, secret);
  }
}
