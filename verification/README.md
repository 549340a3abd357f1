# Verified models of Abir-Guard

Dafny models of the parts of Abir-Guard whose behaviour its own code decides, with proofs of what
those parts promise. Code that changes things step by step is modelled as methods and classes and
proved against a functional specification; the promises are lemmas about that specification, for
all inputs, all runs or all reachable states. `dafny verify dfyconfig.toml` checks everything.

| file | what it models |
|---|---|
| `PrimeField.dfy` | arithmetic and polynomials modulo an arbitrary prime: Euclid's lemma, Fermat, root counting, Lagrange interpolation |
| `Shamir.dfy` | threshold sharing of byte strings over GF(251), with bounded machine integers |
| `AgentKeySharing.dfy` | threshold sharing of a key over a large prime |
| `FederatedVault.dfy`, `StringOrder.dfy` | the last-writer-wins vault nodes and a network of them |
| `Bb84.dfy`, `Bb84Layout.dfy`, `Shuffle.dfy` | the BB84 session, its entropy use, sampling and shuffle, and what it reports in terms of the words alone |
| `RateLimiter.dfy` | the sliding-window limiter against its whole call history |
| `AuditLogger.dfy`, `AuditLog.dfy`, `Compliance.dfy` | the two hash-chained logs and the rule engine |
| `KeyCache.dfy` | the bounded derived-key cache against the uncached derivation |
| `HsmCluster.dfy` | weighted, health-aware provider routing |
| `MpcSession.dfy` | the commit/reveal session |
| `Reshare.dfy` | epoch-based share refresh and its transcript proof |
| `Bytes.dfy`, `Doubles.dfy` | machine integers, byte strings, little-endian words; rounding to double precision |

Each operation is held to two things: the specification function its method is proved against, and
laws that spell out, without that function, which inputs it accepts, what it stores and what it
hashes.

Conventions. Hashes, MACs, key derivation, JSON and UTF-8 encoders are function parameters, with a
stated hypothesis (such as the digest length) only where a result needs it. No collision freedom
is assumed. Every function onto 32 bytes has collisions somewhere, so a tamper-evidence lemma never
says that one exists: it says which two texts, computed from the very logs, plans, maps or requests
in question, collide if the promised equality fails. Random bytes, wall clocks and health answers
are arguments. Rounding to double precision is computed in `Doubles.dfy`. A Rust panic and a Python
exception are results, never preconditions. Congruence modulo `p` is written `Divides(p, a - b)`.

Where code and documentation disagree, or a promise holds under a condition only, the model follows
the code:

- `src/shamir.rs:7` says that bytes above 250 are split into two shares; `split` panics on them
  (lines 54-58).
- `src/audit/audit_log.rs:3-5` says that modifying any past entry invalidates the chain. The last
  entry can be rewritten whole together with its hash (`LastRewritten`), and since entries are hashed
  without field boundaries, index or severity, some edits keep every stored hash
  (`BoundaryIsNotCovered`). `EditUndetectedIff` says exactly which edits of one entry escape.
- `src/performance/key_cache.rs:1-7` speaks of an LRU-style cache; a hit does not refresh an entry
  (`HitDoesNotRefresh`). Output lengths 33 to 64 are admitted by the length test but panic on a
  miss, and so does any input the derivation refuses: `src/kdf.rs:38-40` panics, and the documented
  `DerivationFailed` is never returned (`AnsweredLengths`).
- `src/advanced_secret_sharing.rs:3-4` and line 900 of the repository's own README say that
  refreshing shares leaves the underlying secret alone. It leaves every secret alone exactly when
  all masks are zero (`RefreshKeepsEverySecretIff`), and a particular one exactly when what the masks
  add to its shares is a sharing of zero (`RefreshKeepsSecretIff`).
- The session digest (`src/confidential_computing/mpc/mod.rs:298-320`) hashes names and shares with
  no boundary between them. It commits to the shares of known parties of known lengths
  (`DigestBindsShares`), not to which bytes are a name and which a share
  (`DigestJoinsNameAndShare`).
- `src/qkd/mod.rs:31` promises noise draws below 1. A draw is 1 exactly for the last 1024 words
  (`UnitIsOneIff`), and a noise of 1 leaves those bits alone (`NoiseEnds`).
- The vault needs distinct node identifiers to converge (`SharedIdentifierDiverges`). The rate
  limiter's bound survives a clock that steps back exactly when the quota is at most one or the
  window empty (`AnyClockIff`).

## Model

| member | source | states |
|---|---|---|
| PrimeField.NoZeroDivisors | src/shamir.rs:103-143 | a prime divides a product if and only if it divides a factor, so products of non-zero differences are invertible |
| PrimeField.RootsVanish | src/shamir.rs:102-143 | a polynomial with no more coefficients than it has distinct roots modulo a prime vanishes everywhere |
| PrimeField.FreshmansDream | src/shamir.rs:25-42 | (x + 1)^p is x^p + 1 modulo a prime p, the step on which Fermat's little theorem is proved |
| PrimeField.Fermat | src/shamir.rs:25-42 | the power p - 2 inverts a modulo p exactly when p does not divide a |
| PrimeField.SumAtNode | src/shamir.rs:112-140 | the Lagrange sum takes the given ordinate at each of its nodes |
| PrimeField.Interpolation | src/shamir.rs:102-143 | interpolation at 0 through k points of a polynomial with k + 1 coefficients is off by exactly the top coefficient times the product of the negated abscissas |
| PrimeField.EnoughPoints | src/shamir.rs:102-143 | points of a polynomial, at least as many as it has coefficients and distinct modulo p, interpolate to its constant term |
| PrimeField.OnePointShort | src/shamir.rs:102-143 | with one point fewer the constant term comes back if and only if the top coefficient or some abscissa is 0 modulo p |
| PrimeField.InterpolateDifference | src/shamir.rs:102-143 | two lists of ordinates reconstruct to the same value exactly when their differences reconstruct to 0 |
| PrimeField.OneOrdinateDecides | src/shamir.rs:102-143 | over distinct non-zero nodes, changing one ordinate changes the reconstructed value unless the change is a multiple of the prime |
| Shamir.PrimeIsPrime | src/shamir.rs:9-10 | 251 is prime |
| Shamir.GfInv | src/shamir.rs:25-42 | square-and-multiply computes a^249 modulo 251 without u16 overflow, and panics exactly on 0 |
| Shamir.GfInvInverts | src/shamir.rs:25-42 | the result times the argument is 1 modulo 251 exactly when 251 does not divide the argument; 251 itself passes the zero test |
| Shamir.DrawCoeffs | src/shamir.rs:73-81 | the secret byte first, then every random byte forced into 1 to 250 |
| Shamir.EvalAt | src/shamir.rs:84-93 | the running-power loop evaluates the polynomial modulo 251, without overflow |
| Shamir.FillByte | src/shamir.rs:84-97 | writes one byte position of every share in place and leaves the rest of each share alone |
| Shamir.Split | src/shamir.rs:50-100 | panics exactly when one of the four assertions fails; otherwise share s carries, byte for byte, the value at s + 1 of the polynomial of that secret byte |
| Shamir.LagrangeCoefficient | src/shamir.rs:118-134 | the numerator and denominator loops give the Lagrange coefficient at 0, or a panic exactly when an index above 251 underflows or another index is congruent to this one |
| Shamir.DenominatorZero | src/shamir.rs:118-134 | the denominator is 0, so inversion panics, exactly when another index is congruent modulo 251 |
| Shamir.ReconstructByte | src/shamir.rs:110-140 | one byte of the result is interpolation at 0, and when it is a panic instead |
| Shamir.Reconstruct | src/shamir.rs:103-143 | every byte of the result is interpolation at 0 of that column; panics exactly on no shares, a share shorter than the first, or indices that are out of range or congruent (unless the data is empty) |
| Shamir.ReconstructAcceptsIff | src/shamir.rs:103-143 | when reconstruction does not panic, by lengths and index pairs |
| Shamir.EnoughSharesRecover | src/shamir.rs:50-143 | any threshold or more different shares of a split, in any order and for any random bytes, are accepted and give back the secret |
| Shamir.OneShareShort | src/shamir.rs:78-81 | with one share fewer than the threshold every byte is wrong, off by the top coefficient times the product of the negated indices |
| Shamir.OneShareOfTwo | src/shamir.rs:73-93 | with a threshold of two, one share leaves possible exactly the secret bytes other than the share's own |
| Shamir.OneShareShortHides | src/shamir.rs:73-93 | threshold - 1 shares of a byte rule out at most threshold - 1 of the 251 secret bytes: for every other one some random bytes give the same shares |
| Shamir.ChosenApart | src/shamir.rs:62-67 | different shares of one split always have distinct indices modulo 251, none of them 0 |
| Shamir.ChosenPoints | src/shamir.rs:84-97 | every share of a split lies on its byte's polynomial, in whatever order the shares are picked |
| AgentKeySharing.BytesRoundTrip | abir_guard/multi_agent_key_sharing.py:36-42 | bytes to integer and back at the same length is the identity, leading zeros included |
| AgentKeySharing.IntRoundTrip | abir_guard/multi_agent_key_sharing.py:36-42 | an integer that fits survives the trip through bytes |
| AgentKeySharing.BigEndian | abir_guard/multi_agent_key_sharing.py:36-38 | the first byte is the most significant |
| AgentKeySharing.Split | abir_guard/multi_agent_key_sharing.py:44-60 | refuses a wrong agent count; otherwise agent k gets the value at k + 1 of the polynomial |
| AgentKeySharing.EvalAt | abir_guard/multi_agent_key_sharing.py:56-58 | the per-power loop evaluates the polynomial modulo p |
| AgentKeySharing.LagrangeCoefficient | abir_guard/multi_agent_key_sharing.py:69-77 | the inner loop and the power p - 2 give the Lagrange coefficient at 0 modulo p |
| AgentKeySharing.Recover | abir_guard/multi_agent_key_sharing.py:62-79 | refuses too few shares, interpolates the first threshold-many at 0, and fails exactly when the value does not fit the output length |
| AgentKeySharing.QuorumInterpolates | abir_guard/multi_agent_key_sharing.py:62-79 | any threshold-many different shares first in the list, whatever follows them, interpolate to the encoded secret modulo p |
| AgentKeySharing.QuorumRecoversIff | abir_guard/multi_agent_key_sharing.py:44-79 | with output_len equal to the secret's length, recovery returns the exact bytes if and only if the encoded secret is below the prime |
| StringOrder.LessTrichotomy | abir_guard/federated_vault.py:118-123 | of two different strings exactly one is below the other |
| StringOrder.LessTransitive | abir_guard/federated_vault.py:118-123 | the order of strings is transitive |
| StringOrder.LessAtFirstDifference | abir_guard/federated_vault.py:118-123 | strings are ordered at their first difference, a proper prefix first |
| FederatedVault.WinsTotal | abir_guard/federated_vault.py:118-123 | exactly one of two records wins unless they share timestamp and node |
| FederatedVault.WinsTransitive | abir_guard/federated_vault.py:118-123 | winning is transitive |
| FederatedVault.IntTextRoundTrip | abir_guard/federated_vault.py:77 | a timestamp written as text and parsed back is itself, negative ones included |
| FederatedVault.ExportRoundTrip | abir_guard/federated_vault.py:74-109 | an exported payload verifies, and decodes to the exact record it was made from |
| FederatedVault.FederatedVaultNode.New | abir_guard/federated_vault.py:31-39 | construction is refused exactly for an empty identifier or cluster key; a new node is empty with clock 0 |
| FederatedVault.FederatedVaultNode.TickClock | abir_guard/federated_vault.py:41-43 | the clock moves to the wall clock, or by one when that is not ahead |
| FederatedVault.FederatedVaultNode.Put | abir_guard/federated_vault.py:45-49 | stamps and stores a record under its key and touches no other key |
| FederatedVault.FederatedVaultNode.Delete | abir_guard/federated_vault.py:51-61 | stamps and stores a tombstone under the key and touches no other key |
| FederatedVault.FederatedVaultNode.Get | abir_guard/federated_vault.py:63-67 | the stored record, or nothing for a missing key or a tombstone |
| FederatedVault.FederatedVaultNode.ExportDelta | abir_guard/federated_vault.py:69-87 | the signed payload of the stored record, tombstones included, or an error for a missing key |
| FederatedVault.FederatedVaultNode.ApplyDelta | abir_guard/federated_vault.py:89-116 | refuses, with the state unchanged, a payload with a field missing, one whose five signed fields have another MAC than it carries, and an unreadable timestamp; otherwise stores the record and lifts the clock exactly when it is newer by timestamp, then by node |
| FederatedVault.PutThenGet | abir_guard/federated_vault.py:45-67 | after a put the key answers with the new value and every other key as before |
| FederatedVault.DeleteThenGet | abir_guard/federated_vault.py:51-72 | after a delete the key answers with nothing and is exported as a tombstone, and every other key answers as before |
| FederatedVault.TamperedIsIgnored | abir_guard/federated_vault.py:69-101 | delivering an export with a signed field changed changes nothing, unless the MAC takes one value on the two field maps |
| FederatedVault.MergeKeepsLastWriters | abir_guard/federated_vault.py:111-116 | after a merge the state holds, key by key, the winner of all records seen, the new one included |
| FederatedVault.WriteIsNewest | abir_guard/federated_vault.py:41-61 | a local write beats every record the node has written or received and carries a stamp nobody has used, even if the wall clock steps back |
| FederatedVault.ReceivedWasWritten | abir_guard/federated_vault.py:94-109 | without MAC forgeries an accepted payload decodes to a record some node wrote |
| FederatedVault.StepKeepsInv | abir_guard/federated_vault.py:45-116 | every put, delete, export and delivery by any node keeps the network invariant |
| FederatedVault.RunKeepsInv | abir_guard/federated_vault.py:45-116 | the invariant holds in every state of every run, with loss, duplication, delay and reordering |
| FederatedVault.LastWriterWins | abir_guard/federated_vault.py:41-123 | in every reachable state each node holds exactly the winners of what it has seen, no other state does, and its next put or delete beats all of it |
| FederatedVault.StrongConvergence | abir_guard/federated_vault.py:89-126 | nodes that have seen the same records for a key, at any times and in any order, answer alike for it; same records for all keys gives equal snapshots |
| FederatedVault.SyncAt | abir_guard/federated_vault.py:89-126 | what one-way delivery of a list of keys leaves under each key |
| FederatedVault.ExchangeConvergesIff | abir_guard/federated_vault.py:69-126 | one two-way exchange over all keys makes two snapshots equal if and only if no key holds different records with equal stamps |
| FederatedVault.ClashIsPermanent | abir_guard/federated_vault.py:111-123 | different records with equal stamps under one key survive every sequence of deliveries between their nodes |
| FederatedVault.ExchangeConverges | abir_guard/federated_vault.py:69-126 | in every reachable state of nodes with distinct identifiers one two-way exchange makes any two snapshots equal |
| FederatedVault.OneWayIsSync | abir_guard/federated_vault.py:69-116 | exporting keys one by one and delivering each payload is a run of the network without forgeries that leaves the receiver as the merge of those records and every other node alone |
| FederatedVault.ExchangeRuns | abir_guard/federated_vault.py:69-126 | the two-way exchange as export and delivery steps ends, from any reachable state, with equal snapshots |
| FederatedVault.SharedIdentifierDiverges | abir_guard/federated_vault.py:118-123 | two new nodes with one identifier that put different values under one key at one instant never hold equal states, whatever is delivered between them |
| Shuffle.ShuffledPermutes | src/qkd/mod.rs:239-246 | the shuffle permutes its input |
| Shuffle.ShuffledInjective | src/qkd/mod.rs:239-246 | different choice sequences give different results |
| Shuffle.ShuffledSurjective | src/qkd/mod.rs:239-246 | every permutation is reached by some choice sequence |
| Shuffle.ShuffleIsBijection | src/qkd/mod.rs:239-246 | every permutation of 0..n comes from exactly one sequence of choices |
| Shuffle.PermutationOfIota | src/qkd/mod.rs:239-249 | shuffled indices are distinct and in range |
| Bb84Layout.SampleFromWords | src/qkd/mod.rs:234-249 | the sample is the beginning of the list 0, 1, 2, ... after swapping each position from the last down to 1 with the one the next word picks modulo the position plus one |
| Bb84Layout.EveryChoiceIsDrawn | src/qkd/mod.rs:242-246 | every sequence of swap choices is drawn by some words |
| Bb84.EntropySource.NextU64 | src/qkd/mod.rs:22-25 | one word is consumed per draw, none when the source is exhausted |
| Bb84.EntropySource.NextBit | src/qkd/mod.rs:27-30 | a bit is the low bit of one word |
| Bb84.RandomBasis | src/qkd/mod.rs:73-81 | one word per basis |
| Bb84.MaybeFlip | src/qkd/mod.rs:100-111 | one word, rounded to a double and divided by 2^64, is compared with the flip probability |
| Bb84.NoiseThreshold | src/qkd/mod.rs:31-35 | a channel flips on the words below some threshold and on no others |
| Bb84.NoiseEnds | src/qkd/mod.rs:31-111 | noise 0 flips nothing; noise 1 flips on every word but the last 1024 |
| Bb84.NewChannel | src/qkd/mod.rs:91-98 | probabilities outside 0 to 1 are refused |
| Doubles.NearestAscends | src/qkd/mod.rs:31-35 | rounding a word to the nearest double, ties to even, keeps order |
| Doubles.NearestIsNearest | src/qkd/mod.rs:31-35 | the rounded word is on the grid of doubles, no grid point is nearer, and at equal distance it is an even one |
| Doubles.UnitIsOneIff | src/qkd/mod.rs:31-35 | a draw is at least 0 and at most 1, and is 1 exactly for the last 1024 words |
| Doubles.QuotientWithinIff | src/qkd/mod.rs:213-214 | a rounded quotient of counts is within a limit that is a double exactly when, in whole numbers at the scale it is rounded at, the exact one is within half a unit of it, the even limit winning a tie |
| Doubles.ExactlyWithin | src/qkd/mod.rs:213-214 | a quotient exactly within the limit is never rounded above it |
| Doubles.QuotientEnds | src/qkd/mod.rs:213 | zero over any count is 0 and any count over itself is 1 |
| Bb84.TransmitQubit | src/qkd/mod.rs:177-192 | the order of the draws of one qubit, and which of them decides what |
| Bb84.SiftCost | src/qkd/mod.rs:176-193 | n qubits with s matching bases draw exactly 5n - s words, and exhaustion means fewer than 5n were left |
| Bb84Layout.QubitFromWords | src/qkd/mod.rs:176-193 | a qubit takes four words when its two basis words have one parity and five otherwise; Alice's bit is the first word's parity, and Bob's, when kept, the same flipped exactly when the fourth word's draw is below the noise |
| Bb84Layout.LayoutSifts | src/qkd/mod.rs:176-193 | the sifted strings are those bits of exactly the qubits with equal parities, in order |
| Bb84Layout.SiftedIffLaidOut | src/qkd/mod.rs:176-193 | transmission completes exactly when all qubits can be laid out in the words |
| Bb84Layout.MismatchCount | src/qkd/mod.rs:209-212 | the mismatch count is the number of sampled positions at which the strings differ |
| Bb84Layout.SessionFromWords | src/qkd/mod.rs:170-231 | outcome, position of the source, sifted count, mismatches and key bits of a session, from the parities and draws of the words |
| Bb84.Transmit | src/qkd/mod.rs:176-193 | the loop sifts both bit strings and stops at the first exhausted draw |
| Bb84.ShuffleInPlace | src/qkd/mod.rs:242-246 | the in-place swaps give the shuffle for the drawn choices, with one word for each index but the first |
| Bb84.RandomUniqueIndices | src/qkd/mod.rs:234-250 | the first sample-size entries of the shuffled index list |
| Bb84.MarkSample | src/qkd/mod.rs:204-207 | the flags mark exactly the sampled positions |
| Bb84.CountMismatches | src/qkd/mod.rs:209-212 | the number of sampled positions at which the two bit strings differ |
| Bb84.Unsampled | src/qkd/mod.rs:216-220 | the bits at the unmarked positions, in order |
| Bb84.NewSimulator | src/qkd/mod.rs:156-167 | which parameters are refused, with which error when several apply |
| Bb84.Run | src/qkd/mod.rs:170-231 | the report, or the first error, and the exact position of the entropy source afterwards |
| Bb84.EntropyAccounting | src/qkd/mod.rs:176-203 | a successful run draws exactly 5 * qubit_count - 1 words whatever the bases, noise and sample size; too few sifted bits s draws 5 * qubit_count - s; exhaustion happens only when fewer than 5 * qubit_count were left |
| Bb84.KeyPositionsExact | src/qkd/mod.rs:216-220 | key positions are increasing and are exactly the unsampled ones |
| Bb84.SamplePartitions | src/qkd/mod.rs:199-220 | sampled and key positions together are every sifted position exactly once |
| Bb84.ReportIsFaithful | src/qkd/mod.rs:195-230 | every report counts the mismatches of a duplicate-free sample, carries the remaining bits of Alice in order, and accepts exactly when the rounded rate is within the limit |
| Bb84.AcceptanceBound | src/qkd/mod.rs:213-214 | a successful session accepts exactly when the mismatch rate is within half a unit in the last place of the limit, and always when it is exactly within it |
| Bb84.UniformNoise | src/qkd/mod.rs:100-111 | noise 0 gives no mismatches and acceptance; when every draw is below the noise every sampled bit is flipped and only a limit of 1 accepts |
| Bb84.CertainNoiseIff | src/qkd/mod.rs:31-111 | under noise 1 every draw is below the noise exactly when the source has none of the last 1024 words |
| Bb84.XorShiftNeverZero | src/qkd/mod.rs:44-64 | the seeded generator never reaches state zero, whatever the seed |
| Bb84.FirstWord | src/qkd/mod.rs:44-64 | the first word from seed 1, and the state seed 0 stands for |
| RateLimiter.RateLimiter.constructor | abir_guard/mcp_http.py:34-38 | no address has history at first |
| RateLimiter.RateLimiter.IsAllowed | abir_guard/mcp_http.py:40-53 | decision, remaining count and the new list of that address; other addresses unchanged |
| RateLimiter.RateLimiter.Reset | abir_guard/mcp_http.py:55-57 | forgets one address and no other |
| RateLimiter.CallEffect | abir_guard/mcp_http.py:40-57 | what each call does to the stored list of any address and to its full history of accepted requests |
| RateLimiter.PurgedTwice | abir_guard/mcp_http.py:44-46 | purging early and again later loses nothing that purging once later would keep |
| RateLimiter.StoredIsRecentHistory | abir_guard/mcp_http.py:44-46 | at the moment of a call the purged list is exactly the recent part of the full history of accepted requests |
| RateLimiter.RefusedIffFull | abir_guard/mcp_http.py:45-53 | a request is refused exactly when the window ending at it already holds max_requests accepted ones |
| RateLimiter.WindowNeverOverfull | abir_guard/mcp_http.py:40-53 | on every run with a non-decreasing clock no half-open window of the given length ever holds more than the quota |
| RateLimiter.ClockStepsBack | abir_guard/mcp_http.py:42-53 | for every quota of two or more and every positive window, a run whose clock steps back once puts one acceptance too many into a window |
| RateLimiter.OneAtATime | abir_guard/mcp_http.py:42-53 | with a quota of one acceptances are always at least a window apart, whatever the clock does |
| RateLimiter.AnyClockIff | abir_guard/mcp_http.py:40-53 | the bound on windows holds on all runs, the clock unrestricted, if and only if the quota is at most one or the window is empty |
| RateLimiter.AddressesAreIndependent | abir_guard/mcp_http.py:37-53 | an address is judged as if no other had called |
| AuditLogger.AuditLogger.Log | abir_guard/__init__.py:92-107 | appends one entry that records the event field by field, linked to the previous entry, and changes nothing before it |
| AuditLogger.AuditLogger.VerifyIntegrity | abir_guard/__init__.py:109-128 | true exactly when every entry links to its predecessor and carries its own digest |
| AuditLogger.AppendKeepsVerifies | abir_guard/__init__.py:92-128 | appending to a verifying log gives a verifying log |
| AuditLogger.BuiltVerifies | abir_guard/__init__.py:92-128 | every log built by log() verifies and has one entry for each event |
| AuditLogger.BuiltRecords | abir_guard/__init__.py:92-107 | entry i of a built log holds the time, action, key, outcome and details of event i, its hash, the previous digest exactly when i > 0, and nothing else |
| AuditLogger.StretchVerifiesIff | abir_guard/__init__.py:111-127 | a stretch cut out of a verifying log verifies exactly when it starts at the beginning: a cut head is noticed, a cut tail is not |
| AuditLogger.LastHashCommits | abir_guard/__init__.py:92-128 | two verifying logs ending in the same hash are identical, length included, unless, walking back from the end over equal entries, the first two that differ have one digest |
| AuditLogger.LastHashCommitsApart | abir_guard/__init__.py:92-128 | when the encoding tells the entries of the two logs apart, those two entries have colliding texts |
| AuditLog.AuditLog.Append | src/audit/audit_log.rs:78-121 | refuses an empty actor or action, otherwise appends one entry with the next index, hashed over previous hash, timestamp, actor, action and detail |
| AuditLog.AuditLog.VerifyChain | src/audit/audit_log.rs:131-151 | accepts exactly non-empty logs whose every entry carries the digest of previous hash, timestamp, actor, action and detail, and names the first entry that does not |
| AuditLog.AppendKeepsChained | src/audit/audit_log.rs:95-118 | every append keeps the chain linked |
| AuditLog.BuiltIsChained | src/audit/audit_log.rs:78-121 | after any sequence of appends, refused ones among them, the chain is linked and the entries are exactly the accepted events, numbered in order |
| AuditLog.PreimageParts | src/audit/audit_log.rs:196-210 | two hashed texts are equal exactly when previous hash, timestamp and the run-together actor, action and detail are |
| AuditLog.LinkedIff | src/audit/audit_log.rs:196-210 | an entry links exactly when it carries the digest of the hash before it or 32 zeros, its timestamp, actor, action and detail, absent counting as empty |
| AuditLog.DetailEditIff | src/audit/audit_log.rs:131-151 | an edited detail escapes exactly when its bytes are the same, absent counting as empty, or the two texts collide |
| AuditLog.ActionEditIff | src/audit/audit_log.rs:131-151 | an edited action escapes exactly when it is the same or the two texts collide |
| AuditLog.ActorEditIff | src/audit/audit_log.rs:131-151 | an edited actor escapes exactly when it is the same or the two texts collide |
| AuditLog.FinalHashCommits | src/audit/audit_log.rs:131-151 | two verifying logs of any lengths with equal final hash agree on length and content, unless, walking back from the end over agreeing entries, the next two hashed texts collide, or one log is used up and the next text of the other hashes to the genesis value |
| AuditLog.PrefixChained | src/audit/audit_log.rs:131-151 | a cut-off tail goes unnoticed |
| AuditLog.EditUndetectedIff | src/audit/audit_log.rs:136-148 | an edit of one entry, stored hash included, escapes verification exactly when it carries the digest of its own text and is the last entry, or keeps the hash, or the next entry's two texts collide |
| AuditLog.EditKeepingHashIff | src/audit/audit_log.rs:136-148 | an edit that leaves the stored hash alone escapes exactly when it keeps timestamp and run-together text, or the entry's two texts collide |
| AuditLog.LastRewritten | src/audit/audit_log.rs:136-148 | the last entry can be replaced by any other once its hash is recomputed |
| AuditLog.BoundaryIsNotCovered | src/audit/audit_log.rs:196-210 | moving the last characters of the actor to the action, and any change of index or severity, escapes verification whatever the hash |
| Compliance.CheckConsecutiveAuthFailures | src/audit/compliance.rs:95-129 | the loop appends one violation for each long streak, with that streak's indices |
| Compliance.LongStreaksExact | src/audit/compliance.rs:95-129 | the streaks are exactly the maximal runs of failures longer than the limit, each once, in order, one at the end of the log included |
| Compliance.FailureReports | src/audit/compliance.rs:95-129 | the maximal runs of `auth.failure` entries longer than the limit are reported once each, in order, with length, limit and the stored index of every entry |
| Compliance.CheckRevocationCriticality | src/audit/compliance.rs:131-146 | one violation for each revocation that is not critical, in order |
| Compliance.UncriticalRevocationsExact | src/audit/compliance.rs:131-146 | nothing is reported exactly when every revocation is critical |
| Compliance.RevocationReports | src/audit/compliance.rs:131-146 | exactly the `key.revoke` entries that are not critical are reported, in order, each with its stored index and severity |
| Compliance.ActionCount | src/audit/compliance.rs:153-154 | counting an action is counting the entries that have it |
| Compliance.RatioReports | src/audit/compliance.rs:148-176 | what the ratio rule reports, by the numbers of `key.revoke` and `key.rotation` entries |
| Compliance.RulesInOrder | src/audit/compliance.rs:68-80 | rules report one after the other |
| Compliance.Evaluate | src/audit/compliance.rs:60-88 | an empty log is refused; otherwise the violations of the rules in order, passing when there are none |
| Compliance.RuleSatisfiedIff | src/audit/compliance.rs:95-176 | a rule reports nothing exactly when its meaning, stated on its own, holds of the log |
| Compliance.RatioRuleIff | src/audit/compliance.rs:148-176 | the ratio rule passes a log with rotations exactly when its ratio is within half a unit in the last place of the limit, always when it is exactly within it, and a log without rotations exactly when nothing was revoked |
| Compliance.PassesIffSatisfied | src/audit/compliance.rs:60-88 | a report passes exactly when the log satisfies every rule |
| KeyCache.DerivedKeyCache.New | src/performance/key_cache.rs:81-92 | capacity 0 is refused; a new cache is empty |
| KeyCache.DerivedKeyCache.GetOrDerive | src/performance/key_cache.rs:104-147 | for a bad length, a hit, a refused derivation and a miss: the answer, the entries, the queue and both counters afterwards |
| KeyCache.DerivedKeyCache.Invalidate | src/performance/key_cache.rs:152-160 | removes the key from map and queue and says whether it was there |
| KeyCache.DerivedKeyCache.Clear | src/performance/key_cache.rs:163-166 | empties map and queue and keeps the counters |
| KeyCache.InsertKeepsInStep | src/performance/key_cache.rs:131-145 | eviction and insertion keep map and queue holding the same keys, without duplicates, within capacity |
| KeyCache.ApplyKeepsInStep | src/performance/key_cache.rs:104-166 | every operation does, a panicking or refused one included |
| KeyCache.RunKeepsInvariant | src/performance/key_cache.rs:104-166 | so does every run, and every entry holds a key derived from a password and salt the run asked for |
| KeyCache.CacheIsTransparent | src/performance/key_cache.rs:104-147 | after any run of gets, invalidations and clears each answer, for every output length, equals the uncached derivation, unless the run asked for a different password or salt with the same digests |
| KeyCache.CountersAddUp | src/performance/key_cache.rs:104-166 | below their ceiling the two counters together count every request that passes the length check once, over any run |
| KeyCache.DroppedIsGone | src/performance/key_cache.rs:152-160 | after an invalidation that entry is gone from the map and no other is |
| KeyCache.ClearedIsEmpty | src/performance/key_cache.rs:163-166 | after a clear map and queue are empty |
| KeyCache.AnsweredLengths | src/performance/key_cache.rs:99-129 | a key, the derived one cut to length, comes back exactly for lengths 1 to 32 and inputs the derivation accepts; every other admitted request panics |
| KeyCache.AskAges | src/performance/key_cache.rs:131-145 | exactly how one get moves another entry towards eviction |
| KeyCache.FreshEntrySurvives | src/performance/key_cache.rs:131-145 | an entry survives any run with fewer later insertions than places behind it, unless invalidated or cleared |
| KeyCache.EntryLivesExactly | src/performance/key_cache.rs:131-145 | under gets of other keys it is there exactly that long |
| KeyCache.HitDoesNotRefresh | src/performance/key_cache.rs:116-136 | in a full cache the oldest entry is evicted by the next miss even right after a hit on it |
| HsmCluster.HsmCluster.New | abir_guard/hsm_cluster.py:33-40 | an empty provider list is refused; the cycle starts at the beginning |
| HsmCluster.HsmCluster.Sign | abir_guard/hsm_cluster.py:49-71 | which provider signs, from two passes of health answers, and where the cycle stands afterwards |
| HsmCluster.WeightedIdsCount | abir_guard/hsm_cluster.py:37-40 | provider i is in the cycle exactly max(1, weight) times |
| HsmCluster.CycleLength | abir_guard/hsm_cluster.py:37-40 | the cycle is as long as the sum of max(1, weight) |
| HsmCluster.CycleInOrder | abir_guard/hsm_cluster.py:37-40 | the cycle lists the providers in their order, repetitions together |
| HsmCluster.ChosenIsHealthyAndNear | abir_guard/hsm_cluster.py:49-71 | a call fails exactly when no candidate answers the first pass and nobody the second; the record used answered the pass that counts, and is of the preferred region whenever one of that region answered |
| HsmCluster.ApprovedSpelled | abir_guard/hsm_cluster.py:50-62 | who is on the healthy list: those of the preferred region that answer, if it has providers and one answers, else all that answer the second time |
| HsmCluster.ChosenInOrder | abir_guard/hsm_cluster.py:64-71 | the provider used is the first listed one from the cycle's position on, within two tries for each provider, failing that the first on the list; the cycle stands after the last entry looked at |
| HsmCluster.SteadyChoice | abir_guard/hsm_cluster.py:49-71 | with distinct records and steady health the provider used is itself healthy, and a call fails exactly when nobody is |
| HsmCluster.HealthyCallsFollowCycle | abir_guard/hsm_cluster.py:64-68 | with everyone healthy and no preference calls follow the cycle, one position each |
| HsmCluster.FullTurn | abir_guard/hsm_cluster.py:37-40 | one full turn from any position draws every entry of the cycle once |
| HsmCluster.WeightedFairness | abir_guard/hsm_cluster.py:37-68 | any W consecutive calls, W the sum of max(1, weight), use provider i exactly max(1, weight) times |
| MpcSession.MpcSession.RegisterParty | src/confidential_computing/mpc/mod.rs:198-205 | adds a new party, refuses one already registered, and changes nothing else |
| MpcSession.MpcSession.SubmitPartyShare | src/confidential_computing/mpc/mod.rs:208-219 | a share is stored once for a registered party |
| MpcSession.MpcSession.SubmitCommit | src/confidential_computing/mpc/mod.rs:222-236 | round, replay, registration and duplicate checks in the code's order, then one commitment |
| MpcSession.MpcSession.SubmitReveal | src/confidential_computing/mpc/mod.rs:239-261 | the same checks, then a share that matches its commitment |
| MpcSession.MpcSession.ApplyAggregate | src/confidential_computing/mpc/mod.rs:276-285 | accepts exactly the digest of the stored shares, once there are enough |
| MpcSession.MpcSession.Admit | src/confidential_computing/mpc/mod.rs:322-338 | a nonce is recorded exactly when round and replay checks pass |
| MpcSession.MpcSession.FinalizeDigest | src/confidential_computing/mpc/mod.rs:298-320 | sorting and hashing in a loop gives the digest of the share map |
| MpcSession.Sorted | src/confidential_computing/mpc/mod.rs:303-309 | the sorted list of the parties, each once |
| MpcSession.SortedNamesUnique | src/confidential_computing/mpc/mod.rs:303-309 | there is only one such list, so the digest is a function of the map |
| MpcSession.WriteOnce | src/confidential_computing/mpc/mod.rs:208-261 | over any run commitments and shares are never changed or removed, parties and nonces only grow |
| MpcSession.RefusalOnlyBurnsNonce | src/confidential_computing/mpc/mod.rs:222-284 | a refused message changes nothing but possibly its nonce |
| MpcSession.RegisterLaw | src/confidential_computing/mpc/mod.rs:198-205 | in any run a registration is accepted exactly as the party's first |
| MpcSession.ShareLaw | src/confidential_computing/mpc/mod.rs:208-219 | a direct share is accepted exactly from a registered party that has none |
| MpcSession.RoundLaw | src/confidential_computing/mpc/mod.rs:269-273 | the round moves up by one until the last |
| MpcSession.CommitLaw | src/confidential_computing/mpc/mod.rs:222-236 | a commitment is accepted exactly in its round, with a new nonce, as a registered party's first, and what it changes |
| MpcSession.RevealLaw | src/confidential_computing/mpc/mod.rs:239-261 | a reveal is accepted exactly in its round, with a new nonce, as the first share of a registered party whose commitment is the share's digest, and what it changes |
| MpcSession.AggregateLaw | src/confidential_computing/mpc/mod.rs:276-320 | an aggregate is accepted exactly in its round, with a new nonce, over enough shares, with the digest of the names in order each followed by its share |
| MpcSession.AggregatesAgree | src/confidential_computing/mpc/mod.rs:276-285 | two aggregates accepted over the same shares carry one digest |
| MpcSession.DigestSpelled | src/confidential_computing/mpc/mod.rs:298-320 | the digest is that of the sorted names, each followed by its share |
| MpcSession.NonceNeverReused | src/confidential_computing/mpc/mod.rs:222-338 | once a nonce got past the round check, no later message of any kind with it is accepted |
| MpcSession.SharesAreThoseAccepted | src/confidential_computing/mpc/mod.rs:208-261 | the share map is exactly the set of accepted submissions |
| MpcSession.DigestIgnoresOrder | src/confidential_computing/mpc/mod.rs:298-320 | any two runs with the same accepted submissions, in any order, end in the same digest |
| MpcSession.DigestsAgreeIff | src/confidential_computing/mpc/mod.rs:298-320 | over the same parties and share lengths, digests are equal exactly when the shares are, or their two texts collide |
| MpcSession.DigestBindsShares | src/confidential_computing/mpc/mod.rs:298-320 | share maps with one digest are equal exactly when they have the same parties and share lengths, unless their two texts collide |
| MpcSession.RevealedSharesMatch | src/confidential_computing/mpc/mod.rs:239-261 | on runs that add shares only by reveal every share matches its party's commitment |
| MpcSession.DigestJoinsNameAndShare | src/confidential_computing/mpc/mod.rs:311-317 | letters moved from a share to the name before it give a different share map with an equal digest |
| Reshare.ProactiveRefresher.AdvanceEpoch | src/advanced_secret_sharing.rs:234-236 | the epoch sticks at its maximum |
| Reshare.ProactiveRefresher.MakeMask | src/advanced_secret_sharing.rs:252-268 | the block loop gives the mask, of exactly the length asked |
| Reshare.MaskPrefix | src/advanced_secret_sharing.rs:252-268 | a shorter mask is the beginning of a longer one |
| Reshare.MaskSpelled | src/advanced_secret_sharing.rs:252-268 | byte b of a mask is byte b mod 32 of the digest of seed, epoch and block number b / 32 |
| Reshare.BlockTextsDiffer | src/advanced_secret_sharing.rs:257-261 | different epochs or block numbers hash different texts |
| Reshare.XorBit | src/advanced_secret_sharing.rs:244-248 | a bit of the masked byte is set exactly when the bits of share and mask differ |
| Reshare.ProactiveRefresher.RefreshShare | src/advanced_secret_sharing.rs:239-250 | refuses an empty share, otherwise masks it byte by byte |
| Reshare.MaskedTwice | src/advanced_secret_sharing.rs:244-248 | masking twice is the identity |
| Reshare.ProactiveRefresher.RefreshAll | src/advanced_secret_sharing.rs:286-295 | the whole roster refreshed in order, or the error of an empty source share |
| Reshare.ProactiveRefresher.ReshareForParticipants | src/advanced_secret_sharing.rs:271-322 | fails only on bad thresholds, epoch unchanged, or an empty source share, epoch advanced; the participant and proof failures cannot happen |
| Reshare.BuildRefreshProof | src/advanced_secret_sharing.rs:345-372 | the incremental hash covers epochs, thresholds, names and share commitments in order |
| Reshare.VerifyResharePlan | src/advanced_secret_sharing.rs:326-343 | true exactly when the plan's transcript hashes to its proof |
| Reshare.PlanVerifiesAndUnmasks | src/advanced_secret_sharing.rs:271-343 | every plan verifies, and masking refreshed share i again gives back the share of participant i modulo the roster size |
| Reshare.PlanSpelled | src/advanced_secret_sharing.rs:282-316 | epochs, thresholds, names and every byte of every refreshed share of a plan |
| Reshare.VerifiesIff | src/advanced_secret_sharing.rs:326-372 | a plan verifies exactly when its proof is the digest of epochs, thresholds, names, and names with commitments |
| Reshare.EmptySourceIff | src/advanced_secret_sharing.rs:286-293 | a resharing stops exactly when a share that would be used is empty |
| Reshare.CommittedBinds | src/advanced_secret_sharing.rs:362-366 | equal committed transcripts over the same names carry equal shares, or the commitment texts of one participant's two shares collide |
| Reshare.ProofBindsShares | src/advanced_secret_sharing.rs:326-372 | two verifying plans with one proof have equal epochs and threshold words, and over equal names equal shares, unless their two transcripts, or one participant's two commitment texts, collide |
| Reshare.RefreshKeepsSecretIff | src/advanced_secret_sharing.rs:239-295 | refreshed shares of a secret shared over GF(251) reconstruct to it exactly when what the masks add, computed from shares and masks beforehand, is a sharing of zero at every byte |
| Reshare.RefreshAdds | src/advanced_secret_sharing.rs:244-248 | what exclusive or with the mask adds to each share byte, as an integer, is the mask less twice the bits in common |
| Reshare.RefreshChangesSecret | src/advanced_secret_sharing.rs:239-295 | for any hash and any distinct non-zero indices, a mask byte that is not zero changes the secret of some sharing, which is exhibited |
| Reshare.RefreshKeepsEverySecretIff | src/advanced_secret_sharing.rs:239-295 | a refresh keeps the secret of every sharing if and only if all its mask bytes are zero |

## Left out

- Shamir.Reconstruct: overflow is the panic of a checked build; a release build wraps `PRIME - xj` around for indices above 251 instead.
- Shamir.EnoughSharesRecover: base64 encoding and decoding of shares is not part of this model.
- AgentKeySharing.QuorumRecoversIff: that 2^521 - 1 is prime is a hypothesis on `p`, not proved; `quorum_authorized` and `encrypt_for_swarm` are not modelled.
- FederatedVault.FederatedVaultNode.ApplyDelta: the timestamp syntaxes of Python's `int` beyond an optional minus sign and ASCII digits (plus sign, blanks, underscores, other digits) are read as an error; no node writes them. A `mac` with characters outside ASCII is `BadMac` here and a TypeError of `hmac.compare_digest` in the program.
- FederatedVault.StepKeepsInv: assumes distinct identifiers, nodes that do not restart with an empty state, and no MAC forgery; JSON is part of the abstract MAC.
- Doubles.QuotientWithinIff: counts above 2^53 and limits above 2^53, infinite or not numbers are left out.
- Shamir.OneShareShortHides: nothing is claimed about fewer than threshold - 1 shares.
- HsmCluster.HsmCluster.New: `healthy_regions` and signing itself are left out.
- RateLimiter.RateLimiter.IsAllowed: calls are sequential; the clock is read before the lock, so threads could interleave. Times are exact numbers.
- AuditLogger.AuditLogger.Log: the JSON text with sorted keys is an arbitrary encoder; reading entries back is left out.
- AuditLog.AuditLog.Append: the entry queries are left out.
- KeyCache.DerivedKeyCache.GetOrDerive: the accessors `stats`, `len` and `is_empty` are left out.
- MpcSession.MpcSession.RegisterParty: policy validation and the session nonce, which is computed from the policy, are left out.
- Reshare.ProactiveRefresher.RefreshShare: share commitments with indices and MAC-authenticated shares are left out.
- Encryption, KEMs, signatures, HKDF and Argon2id, HTTP and sockets, persistence, cloud, TPM, SGX and YubiKey backends: library calls or I/O.
- RBAC, rotation and revocation bookkeeping, DID documents and the anchor registry: small map updates outside these protocols. `abir_guard/qkd_network.py`: a simpler simulator of the same protocol.
