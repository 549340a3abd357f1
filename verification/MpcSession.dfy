/**
 The commit and reveal session of `src/confidential_computing/mpc/mod.rs`.

 `Env` holds the digest and the UTF-8 encoding of party names, both arbitrary functions.
 `MpcSession` is the class; `Session` is its value, on which the message handler and the runs are
 stated.
 */
module MpcSession {
  import opened Bytes
  import opened StringOrder

  datatype Env = Env(digest: bytes -> bytes, utf8: string -> bytes)

  datatype Policy = Policy(totalParties: nat, threshold: nat, maxRounds: nat)

  datatype MpcError =
    | DuplicateParty | UnknownParty | DuplicateShare | DuplicateCommitment | InsufficientShares | RoundMismatch
    | UnknownCommitment | InvalidCommitment | ReplayDetected | AggregateMismatch

  datatype Finalized = Digested(digest: bytes) | TooFewShares

  datatype Response = Accepted | Rejected(error: MpcError)

  datatype Session = Session(policy: Policy, parties: set<string>, commitments: map<string, bytes>,
                             shares: map<string, bytes>, seenNonces: set<u64>, round: nat)

  datatype Message =
    | Register(party: string)
    | SubmitShare(party: string, share: bytes)
    | Commit(party: string, commitment: bytes, nonce: u64, msgRound: nat)
    | Reveal(party: string, share: bytes, nonce: u64, msgRound: nat)
    | Aggregate(digest: bytes, nonce: u64, msgRound: nat)
    | AdvanceRound

  predicate CarriesNonce(m: Message) {
    m.Commit? || m.Reveal? || m.Aggregate?
  }

  function NewSession(policy: Policy): Session {
    Session(policy, {}, map[], map[], {}, 1)
  }

  // ----- The digest -----

  ghost predicate SortedNames(names: seq<string>, keys: set<string>) {
    && (forall i, j :: 0 <= i < j < |names| ==> Less(names[i], names[j]))
    && (forall k :: k in names <==> k in keys)
  }

  /** There is only one way to list a set of names in order. */
  lemma {:induction false} SortedNamesUnique(a: seq<string>, b: seq<string>, keys: set<string>)
    requires SortedNames(a, keys) && SortedNames(b, keys)
    ensures a == b
    decreases |a|
  {
    assert b != [] ==> b[0] in keys;
    if a != [] {
      assert a[0] in keys && a[0] in b && b[0] in keys && b[0] in a;
      if a[0] != b[0] {
        LessTrichotomy(a[0], b[0]);
        assert false;
      }
      TailSorted(a, keys);
      TailSorted(b, keys);
      SortedNamesUnique(a[1..], b[1..], keys - {a[0]});
      assert a == [a[0]] + a[1..] && b == [b[0]] + b[1..];
    }
  }

  lemma TailSorted(names: seq<string>, keys: set<string>)
    requires SortedNames(names, keys) && names != []
    ensures SortedNames(names[1..], keys - {names[0]})
  {
    assert names == [names[0]] + names[1..];
    if names[0] in names[1..] {
      var i :| 0 <= i < |names[1..]| && names[1..][i] == names[0];
      assert Less(names[0], names[i + 1]);
      LessTrichotomy(names[0], names[0]);
      assert false;
    }
  }

  /** What the hasher is fed for parties listed in the order of `names`. */
  function Transcript(env: Env, names: seq<string>, shares: map<string, bytes>): bytes {
    if names == [] then []
    else
      var last := names[|names| - 1];
      Transcript(env, names[..|names| - 1], shares)
        + env.utf8(last) + if last in shares then shares[last] else []
  }

  /** Insertion into a sorted list. */
  function Inserted(names: seq<string>, name: string): seq<string> {
    if names == [] then [name]
    else if Less(name, names[0]) then [name] + names
    else [names[0]] + Inserted(names[1..], name)
  }

  lemma {:induction false} InsertedSorts(names: seq<string>, keys: set<string>, name: string)
    requires SortedNames(names, keys) && name !in keys
    ensures SortedNames(Inserted(names, name), keys + {name})
    decreases |names|
  {
    if names == [] {
      assert keys == {};
    } else {
      var head, tail := names[0], names[1..];
      assert names == [head] + tail && head in keys;
      if Less(name, head) {
        forall i | 0 <= i < |names|
          ensures Less(name, names[i])
        {
          if i > 0 {
            LessTransitive(name, head, names[i]);
          }
        }
      } else {
        LessTrichotomy(name, head);
        TailSorted(names, keys);
        InsertedSorts(tail, keys - {head}, name);
        var rest := Inserted(tail, name);
        forall i | 0 <= i < |rest|
          ensures Less(head, rest[i])
        {
          assert rest[i] in keys - {head} + {name};
          if rest[i] != name {
            assert rest[i] in tail;
          }
        }
        assert keys - {head} + {name} + {head} == keys + {name};
      }
    }
  }

  /** The names in order, computed from whatever order the map's keys come in. */
  method Sorted(keys: set<string>) returns (names: seq<string>)
    ensures SortedNames(names, keys)
  {
    names := [];
    var left := keys;
    while left != {}
      invariant left <= keys && SortedNames(names, keys - left)
      decreases left
    {
      var name :| name in left;
      InsertedSorts(names, keys - left, name);
      assert keys - left + {name} == keys - (left - {name});
      names := Inserted(names, name);
      left := left - {name};
    }
    assert keys - {} == keys;
  }

  lemma {:induction false} SortedNamesExist(keys: set<string>)
    ensures exists names :: SortedNames(names, keys)
    decreases keys
  {
    if keys == {} {
      assert SortedNames([], keys);
    } else {
      var name :| name in keys;
      SortedNamesExist(keys - {name});
      var rest :| SortedNames(rest, keys - {name});
      InsertedSorts(rest, keys - {name}, name);
      assert keys - {name} + {name} == keys;
      assert SortedNames(Inserted(rest, name), keys);
    }
  }

  ghost function InOrder(keys: set<string>): (names: seq<string>)
    ensures SortedNames(names, keys)
  {
    SortedNamesExist(keys);
    var names :| SortedNames(names, keys);
    names
  }

  ghost function Digest(env: Env, shares: map<string, bytes>): bytes {
    env.digest(Transcript(env, InOrder(shares.Keys), shares))
  }

  // ----- The message handler -----

  function BurnNonce(s: Session, nonce: u64): Session {
    s.(seenNonces := s.seenNonces + {nonce})
  }

  ghost function HandleCommit(s: Session, m: Message): (Session, Response)
    requires m.Commit?
  {
    if m.party !in s.parties then (s, Rejected(UnknownParty))
    else if m.party in s.commitments then (s, Rejected(DuplicateCommitment))
    else (s.(commitments := s.commitments[m.party := m.commitment]), Accepted)
  }

  ghost function HandleReveal(env: Env, s: Session, m: Message): (Session, Response)
    requires m.Reveal?
  {
    if m.party !in s.parties then (s, Rejected(UnknownParty))
    else if m.party in s.shares then (s, Rejected(DuplicateShare))
    else if m.party !in s.commitments then (s, Rejected(UnknownCommitment))
    else if s.commitments[m.party] != env.digest(m.share) then (s, Rejected(InvalidCommitment))
    else (s.(shares := s.shares[m.party := m.share]), Accepted)
  }

  ghost function HandleAggregate(env: Env, s: Session, m: Message): (Session, Response)
    requires m.Aggregate?
  {
    if |s.shares| < s.policy.threshold then (s, Rejected(InsufficientShares))
    else if Digest(env, s.shares) != m.digest then (s, Rejected(AggregateMismatch))
    else (s, Accepted)
  }

  ghost function Handle(env: Env, s: Session, m: Message): (Session, Response) {
    if m.Register? then
      if m.party in s.parties then (s, Rejected(DuplicateParty))
      else (s.(parties := s.parties + {m.party}), Accepted)
    else if m.SubmitShare? then
      if m.party !in s.parties then (s, Rejected(UnknownParty))
      else if m.party in s.shares then (s, Rejected(DuplicateShare))
      else (s.(shares := s.shares[m.party := m.share]), Accepted)
    else if m.AdvanceRound? then
      (if s.round < s.policy.maxRounds then s.(round := s.round + 1) else s, Accepted)
    else if m.msgRound != s.round then (s, Rejected(RoundMismatch))
    else if m.nonce in s.seenNonces then (s, Rejected(ReplayDetected))
    else
      var burnt := BurnNonce(s, m.nonce);
      if m.Commit? then HandleCommit(burnt, m)
      else if m.Reveal? then HandleReveal(env, burnt, m)
      else HandleAggregate(env, burnt, m)
  }

  class MpcSession {
    const env: Env
    const policy: Policy
    var parties: set<string>
    var commitments: map<string, bytes>
    var shares: map<string, bytes>
    var seenNonces: set<u64>
    var round: nat

    ghost function Value(): Session
      reads this
    {
      Session(policy, parties, commitments, shares, seenNonces, round)
    }

    constructor (env: Env, policy: Policy)
      ensures this.env == env && Value() == NewSession(policy)
    {
      this.env, this.policy := env, policy;
      parties, commitments, shares, seenNonces, round := {}, map[], map[], {}, 1;
    }

    method RegisterParty(party: string) returns (r: Response)
      modifies this
      ensures (Value(), r) == Handle(env, old(Value()), Register(party))
      ensures r == if party in old(parties) then Rejected(DuplicateParty) else Accepted
    {
      if party in parties {
        return Rejected(DuplicateParty);
      }
      parties := parties + {party};
      return Accepted;
    }

    method SubmitPartyShare(party: string, share: bytes) returns (r: Response)
      modifies this
      ensures (Value(), r) == Handle(env, old(Value()), SubmitShare(party, share))
      ensures r == if party !in parties then Rejected(UnknownParty)
                   else if party in old(shares) then Rejected(DuplicateShare) else Accepted
    {
      if party !in parties {
        return Rejected(UnknownParty);
      }
      if party in shares {
        return Rejected(DuplicateShare);
      }
      shares := shares[party := share];
      return Accepted;
    }

    /** The checks common to all messages that carry a nonce: `ensure_round`, then `register_nonce`. */
    method Admit(nonce: u64, msgRound: nat) returns (r: Response)
      modifies this`seenNonces
      ensures r == if msgRound != round then Rejected(RoundMismatch)
                   else if nonce in old(seenNonces) then Rejected(ReplayDetected) else Accepted
      ensures seenNonces == if r.Accepted? then old(seenNonces) + {nonce} else old(seenNonces)
    {
      if msgRound != round {
        return Rejected(RoundMismatch);
      }
      if nonce in seenNonces {
        return Rejected(ReplayDetected);
      }
      seenNonces := seenNonces + {nonce};
      return Accepted;
    }

    method SubmitCommit(party: string, commitment: bytes, nonce: u64, msgRound: nat) returns (r: Response)
      modifies this
      ensures (Value(), r) == Handle(env, old(Value()), Commit(party, commitment, nonce, msgRound))
      ensures r == if msgRound != round then Rejected(RoundMismatch)
                   else if nonce in old(seenNonces) then Rejected(ReplayDetected)
                   else if party !in parties then Rejected(UnknownParty)
                   else if party in old(commitments) then Rejected(DuplicateCommitment) else Accepted
    {
      r := Admit(nonce, msgRound);
      if r.Rejected? {
        return;
      }
      if party !in parties {
        return Rejected(UnknownParty);
      }
      if party in commitments {
        return Rejected(DuplicateCommitment);
      }
      commitments := commitments[party := commitment];
    }

    method SubmitReveal(party: string, share: bytes, nonce: u64, msgRound: nat) returns (r: Response)
      modifies this
      ensures (Value(), r) == Handle(env, old(Value()), Reveal(party, share, nonce, msgRound))
      ensures r == if msgRound != round then Rejected(RoundMismatch)
                   else if nonce in old(seenNonces) then Rejected(ReplayDetected)
                   else if party !in parties then Rejected(UnknownParty)
                   else if party in old(shares) then Rejected(DuplicateShare)
                   else if party !in commitments then Rejected(UnknownCommitment)
                   else if commitments[party] != env.digest(share) then Rejected(InvalidCommitment) else Accepted
    {
      r := Admit(nonce, msgRound);
      if r.Rejected? {
        return;
      }
      if party !in parties {
        return Rejected(UnknownParty);
      }
      if party in shares {
        return Rejected(DuplicateShare);
      }
      if party !in commitments {
        return Rejected(UnknownCommitment);
      }
      if commitments[party] != env.digest(share) {
        return Rejected(InvalidCommitment);
      }
      shares := shares[party := share];
    }

    method ApplyAggregate(digest: bytes, nonce: u64, msgRound: nat) returns (r: Response)
      modifies this
      ensures (Value(), r) == Handle(env, old(Value()), Aggregate(digest, nonce, msgRound))
      ensures r == if msgRound != round then Rejected(RoundMismatch)
                   else if nonce in old(seenNonces) then Rejected(ReplayDetected)
                   else if |shares| < policy.threshold then Rejected(InsufficientShares)
                   else if digest != Digest(env, shares) then Rejected(AggregateMismatch) else Accepted
    {
      r := Admit(nonce, msgRound);
      if r.Rejected? {
        return;
      }
      var local := FinalizeDigest();
      if local.TooFewShares? {
        return Rejected(InsufficientShares);
      }
      if local.digest != digest {
        return Rejected(AggregateMismatch);
      }
    }

    method NextRound()
      modifies this
      ensures (Value(), Accepted) == Handle(env, old(Value()), AdvanceRound)
      ensures round == if old(round) < policy.maxRounds then old(round) + 1 else old(round)
    {
      if round < policy.maxRounds {
        round := round + 1;
      }
    }

    /** Sort the names, then feed the hasher each name and its share. */
    method FinalizeDigest() returns (r: Finalized)
      ensures r == if |shares| < policy.threshold then TooFewShares else Digested(Digest(env, shares))
    {
      if |shares| < policy.threshold {
        return TooFewShares;
      }
      var names := Sorted(shares.Keys);
      SortedNamesUnique(names, InOrder(shares.Keys), shares.Keys);
      var fed: bytes := [];
      for i := 0 to |names|
        invariant fed == Transcript(env, names[..i], shares)
      {
        assert names[..i + 1][..i] == names[..i];
        fed := fed + env.utf8(names[i]);
        if names[i] in shares {
          fed := fed + shares[names[i]];
        }
      }
      assert names[..|names|] == names;
      r := Digested(env.digest(fed));
    }
  }

  // ----- Runs -----

  ghost function After(env: Env, s: Session, ms: seq<Message>): Session {
    if ms == [] then s else Handle(env, After(env, s, ms[..|ms| - 1]), ms[|ms| - 1]).0
  }

  /** The answer to message `i` of a run. */
  ghost function Answer(env: Env, s: Session, ms: seq<Message>, i: nat): Response
    requires i < |ms|
  {
    Handle(env, After(env, s, ms[..i]), ms[i]).1
  }

  lemma AfterStep(env: Env, s: Session, ms: seq<Message>, i: nat)
    requires i < |ms|
    ensures After(env, s, ms[..i + 1]) == Handle(env, After(env, s, ms[..i]), ms[i]).0
  {
    assert ms[..i + 1][..i] == ms[..i];
  }

  // ----- When a message of a run is accepted, and what it changes -----

  /** A registration is accepted exactly when it is the party's first. */
  lemma RegisterLaw(env: Env, s: Session, ms: seq<Message>, i: nat)
    requires i < |ms| && ms[i].Register?
    ensures var st, m := After(env, s, ms[..i]), ms[i];
            && (Answer(env, s, ms, i).Accepted? <==> m.party !in st.parties)
            && After(env, s, ms[..i + 1]) == st.(parties := st.parties + {m.party})
  {
    AfterStep(env, s, ms, i);
    var st := After(env, s, ms[..i]);
    assert ms[i].party in st.parties ==> st.parties + {ms[i].party} == st.parties;
  }

  /** A direct share is accepted exactly from a registered party that has none yet. */
  lemma ShareLaw(env: Env, s: Session, ms: seq<Message>, i: nat)
    requires i < |ms| && ms[i].SubmitShare?
    ensures var st, m := After(env, s, ms[..i]), ms[i];
            var accepted := m.party in st.parties && m.party !in st.shares;
            && (Answer(env, s, ms, i).Accepted? <==> accepted)
            && After(env, s, ms[..i + 1]) == if accepted then st.(shares := st.shares[m.party := m.share]) else st
  {
    AfterStep(env, s, ms, i);
  }

  /** The round moves up by one until the last round. */
  lemma RoundLaw(env: Env, s: Session, ms: seq<Message>, i: nat)
    requires i < |ms| && ms[i].AdvanceRound?
    ensures var st := After(env, s, ms[..i]);
            After(env, s, ms[..i + 1]) == st.(round := if st.round < st.policy.maxRounds then st.round + 1 else st.round)
  {
    AfterStep(env, s, ms, i);
  }

  /** A commitment is accepted exactly in its round, with a new nonce, as a registered party's first. */
  lemma CommitLaw(env: Env, s: Session, ms: seq<Message>, i: nat)
    requires i < |ms| && ms[i].Commit?
    ensures var st, m := After(env, s, ms[..i]), ms[i];
            var admitted := m.msgRound == st.round && m.nonce !in st.seenNonces;
            var accepted := admitted && m.party in st.parties && m.party !in st.commitments;
            && (Answer(env, s, ms, i).Accepted? <==> accepted)
            && After(env, s, ms[..i + 1]) ==
                 st.(seenNonces := if admitted then st.seenNonces + {m.nonce} else st.seenNonces,
                     commitments := if accepted then st.commitments[m.party := m.commitment] else st.commitments)
  {
    AfterStep(env, s, ms, i);
  }

  /**
   A reveal is accepted exactly in its round, with a new nonce, as the first share of a registered
   party that has committed to the share's digest.
   */
  lemma RevealLaw(env: Env, s: Session, ms: seq<Message>, i: nat)
    requires i < |ms| && ms[i].Reveal?
    ensures var st, m := After(env, s, ms[..i]), ms[i];
            var admitted := m.msgRound == st.round && m.nonce !in st.seenNonces;
            var accepted := admitted && m.party in st.parties && m.party !in st.shares
                            && m.party in st.commitments && st.commitments[m.party] == env.digest(m.share);
            && (Answer(env, s, ms, i).Accepted? <==> accepted)
            && After(env, s, ms[..i + 1]) ==
                 st.(seenNonces := if admitted then st.seenNonces + {m.nonce} else st.seenNonces,
                     shares := if accepted then st.shares[m.party := m.share] else st.shares)
  {
    AfterStep(env, s, ms, i);
  }

  function Joined(parts: seq<bytes>): bytes {
    if parts == [] then [] else parts[0] + Joined(parts[1..])
  }

  lemma {:induction false} JoinedEnd(parts: seq<bytes>)
    requires parts != []
    ensures Joined(parts) == Joined(parts[..|parts| - 1]) + parts[|parts| - 1]
  {
    if |parts| > 1 {
      JoinedEnd(parts[1..]);
      assert parts[1..][..|parts| - 2] == parts[..|parts| - 1][1..];
    } else {
      assert parts[1..] == [];
    }
  }

  /** Each name followed by its share. */
  function NamedShares(env: Env, names: seq<string>, shares: map<string, bytes>): (parts: seq<bytes>)
    requires forall k :: 0 <= k < |names| ==> names[k] in shares
    ensures |parts| == |names|
  {
    seq(|names|, k requires 0 <= k < |names| => env.utf8(names[k]) + shares[names[k]])
  }

  lemma {:induction false} TranscriptJoins(env: Env, names: seq<string>, shares: map<string, bytes>)
    requires forall k :: 0 <= k < |names| ==> names[k] in shares
    ensures Transcript(env, names, shares) == Joined(NamedShares(env, names, shares))
  {
    if names != [] {
      var n := |names| - 1;
      TranscriptJoins(env, names[..n], shares);
      JoinedEnd(NamedShares(env, names, shares));
      assert NamedShares(env, names, shares)[..n] == NamedShares(env, names[..n], shares);
    }
  }

  /** The digest is that of the names in order, each followed by its share. */
  lemma DigestSpelled(env: Env, shares: map<string, bytes>, names: seq<string>)
    requires forall i, j :: 0 <= i < j < |names| ==> Less(names[i], names[j])
    requires forall k :: k in names <==> k in shares
    ensures Digest(env, shares) == env.digest(Joined(NamedShares(env, names, shares)))
  {
    SortedNamesUnique(names, InOrder(shares.Keys), shares.Keys);
    TranscriptJoins(env, names, shares);
  }

  /**
   An aggregate is accepted exactly in its round, with a new nonce, over enough shares, when it
   carries the digest of the names in order, each followed by its share.  It changes no share.
   */
  lemma AggregateLaw(env: Env, s: Session, ms: seq<Message>, i: nat, names: seq<string>)
    requires i < |ms| && ms[i].Aggregate?
    requires forall a, b :: 0 <= a < b < |names| ==> Less(names[a], names[b])
    requires forall k :: k in names <==> k in After(env, s, ms[..i]).shares
    ensures var st, m := After(env, s, ms[..i]), ms[i];
            var admitted := m.msgRound == st.round && m.nonce !in st.seenNonces;
            && (Answer(env, s, ms, i).Accepted? <==>
                  admitted && |st.shares| >= st.policy.threshold
                  && m.digest == env.digest(Joined(NamedShares(env, names, st.shares))))
            && After(env, s, ms[..i + 1]) ==
                 st.(seenNonces := if admitted then st.seenNonces + {m.nonce} else st.seenNonces)
  {
    hide Joined, NamedShares;
    AfterStep(env, s, ms, i);
    DigestSpelled(env, After(env, s, ms[..i]).shares, names);
  }

  /** Two aggregates accepted over the same shares carry one digest. */
  lemma AggregatesAgree(env: Env, s: Session, ms: seq<Message>, i: nat, j: nat)
    requires i < |ms| && j < |ms| && ms[i].Aggregate? && ms[j].Aggregate?
    requires Answer(env, s, ms, i).Accepted? && Answer(env, s, ms, j).Accepted?
    requires After(env, s, ms[..i]).shares == After(env, s, ms[..j]).shares
    ensures ms[i].digest == ms[j].digest
  {
    var names := InOrder(After(env, s, ms[..i]).shares.Keys);
    assert forall k :: k in names <==> k in After(env, s, ms[..i]).shares;
    AggregateLaw(env, s, ms, i, names);
    AggregateLaw(env, s, ms, j, names);
  }

  /** Later sessions extend earlier ones: nothing is ever withdrawn or overwritten. */
  predicate Extends(s: Session, s': Session) {
    && s.policy == s'.policy && s.parties <= s'.parties && s.seenNonces <= s'.seenNonces && s.round <= s'.round
    && (forall p :: p in s.commitments ==> p in s'.commitments && s'.commitments[p] == s.commitments[p])
    && (forall p :: p in s.shares ==> p in s'.shares && s'.shares[p] == s.shares[p])
  }

  lemma ExtendsTransitive(s: Session, s': Session, s'': Session)
    requires Extends(s, s') && Extends(s', s'')
    ensures Extends(s, s'')
  {
  }

  lemma HandlersExtend(env: Env, s: Session, m: Message)
    ensures m.Commit? ==> Extends(s, HandleCommit(s, m).0)
    ensures m.Reveal? ==> Extends(s, HandleReveal(env, s, m).0)
    ensures m.Aggregate? ==> Extends(s, HandleAggregate(env, s, m).0)
  {
  }

  lemma HandleExtends(env: Env, s: Session, m: Message)
    ensures Extends(s, Handle(env, s, m).0)
  {
    hide HandleCommit, HandleReveal, HandleAggregate;
    if CarriesNonce(m) && m.msgRound == s.round && m.nonce !in s.seenNonces {
      var burnt := BurnNonce(s, m.nonce);
      HandlersExtend(env, burnt, m);
      ExtendsTransitive(s, burnt, Handle(env, s, m).0);
    }
  }

  /** Shares and commitments are write-once over any run. */
  lemma {:induction false} WriteOnce(env: Env, s: Session, ms: seq<Message>, i: nat, j: nat)
    requires i <= j <= |ms|
    ensures Extends(After(env, s, ms[..i]), After(env, s, ms[..j]))
    decreases j
  {
    hide After, Handle;
    if i < j {
      WriteOnce(env, s, ms, i, j - 1);
      AfterStep(env, s, ms, j - 1);
      HandleExtends(env, After(env, s, ms[..j - 1]), ms[j - 1]);
      ExtendsTransitive(After(env, s, ms[..i]), After(env, s, ms[..j - 1]), After(env, s, ms[..j]));
    }
  }

  /** A refused message leaves the session alone, except that its nonce may be used up. */
  lemma RefusalOnlyBurnsNonce(env: Env, s: Session, m: Message)
    requires Handle(env, s, m).1.Rejected?
    ensures var s' := Handle(env, s, m).0;
            s' == s || (CarriesNonce(m) && m.msgRound == s.round && s' == BurnNonce(s, m.nonce))
  {
  }

  lemma NonceRegistered(env: Env, s: Session, m: Message)
    requires CarriesNonce(m) && Handle(env, s, m).1 != Rejected(RoundMismatch)
    ensures m.nonce in Handle(env, s, m).0.seenNonces
  {
  }

  lemma SeenNonceRefused(env: Env, s: Session, m: Message)
    requires CarriesNonce(m) && m.nonce in s.seenNonces
    ensures Handle(env, s, m) == (s, Rejected(if m.msgRound != s.round then RoundMismatch else ReplayDetected))
  {
  }

  /**
   A nonce that got past the round check, even in a message then refused, is never accepted again
   in a message of any kind.
   */
  lemma NonceNeverReused(env: Env, s: Session, ms: seq<Message>, i: nat, j: nat)
    requires i < j < |ms| && CarriesNonce(ms[i]) && CarriesNonce(ms[j]) && ms[i].nonce == ms[j].nonce
    requires Answer(env, s, ms, i) != Rejected(RoundMismatch)
    ensures Answer(env, s, ms, j) == Rejected(RoundMismatch) || Answer(env, s, ms, j) == Rejected(ReplayDetected)
  {
    hide Handle, After;
    AfterStep(env, s, ms, i);
    NonceRegistered(env, After(env, s, ms[..i]), ms[i]);
    WriteOnce(env, s, ms, i + 1, j);
    SeenNonceRefused(env, After(env, s, ms[..j]), ms[j]);
  }

  /** Whether a message adds its share to the session. */
  ghost predicate AddsShare(env: Env, s: Session, m: Message) {
    (m.SubmitShare? || m.Reveal?) && Handle(env, s, m).1.Accepted?
  }

  lemma HandleShares(env: Env, s: Session, m: Message)
    ensures AddsShare(env, s, m) ==> m.party !in s.shares
    ensures Handle(env, s, m).0.shares == if AddsShare(env, s, m) then s.shares[m.party := m.share] else s.shares
  {
  }

  /** The party and share of every message of the run that added a share. */
  ghost function AcceptedShares(env: Env, s: Session, ms: seq<Message>): set<(string, bytes)> {
    if ms == [] then {}
    else
      var n := |ms| - 1;
      AcceptedShares(env, s, ms[..n]) +
      if AddsShare(env, After(env, s, ms[..n]), ms[n]) then {(ms[n].party, ms[n].share)} else {}
  }

  ghost predicate SharesAre(shares: map<string, bytes>, pairs: set<(string, bytes)>) {
    forall p, b :: (p, b) in pairs <==> p in shares && shares[p] == b
  }

  lemma {:induction false} SharesAreThoseAccepted(env: Env, policy: Policy, ms: seq<Message>)
    ensures SharesAre(After(env, NewSession(policy), ms).shares, AcceptedShares(env, NewSession(policy), ms))
  {
    if ms != [] {
      var before, m := ms[..|ms| - 1], ms[|ms| - 1];
      SharesAreThoseAccepted(env, policy, before);
      HandleShares(env, After(env, NewSession(policy), before), m);
    }
  }

  /**
   The digest depends only on which shares were accepted: two runs that accepted the same ones, in
   whatever order and by whatever messages, end with the same shares and the same digest.
   */
  lemma DigestIgnoresOrder(env: Env, policy: Policy, ms: seq<Message>, ms': seq<Message>)
    requires AcceptedShares(env, NewSession(policy), ms) == AcceptedShares(env, NewSession(policy), ms')
    ensures var shares, shares' := After(env, NewSession(policy), ms).shares, After(env, NewSession(policy), ms').shares;
            shares == shares' && Digest(env, shares) == Digest(env, shares')
  {
    SharesAreThoseAccepted(env, policy, ms);
    SharesAreThoseAccepted(env, policy, ms');
    var pairs := AcceptedShares(env, NewSession(policy), ms);
    var shares, shares' := After(env, NewSession(policy), ms).shares, After(env, NewSession(policy), ms').shares;
    forall p
      ensures p in shares <==> p in shares'
      ensures p in shares ==> shares[p] == shares'[p]
    {
      assert p in shares ==> (p, shares[p]) in pairs;
      assert p in shares' ==> (p, shares'[p]) in pairs;
    }
    assert shares == shares';
  }

  ghost predicate SharesMatchCommitments(env: Env, s: Session) {
    forall p :: p in s.shares ==> p in s.commitments && s.commitments[p] == env.digest(s.shares[p])
  }

  lemma RevealKeepsMatching(env: Env, s: Session, m: Message)
    requires !m.SubmitShare? && SharesMatchCommitments(env, s)
    ensures SharesMatchCommitments(env, Handle(env, s, m).0)
  {
  }

  /** When shares come by reveal only, each is always the opening of its party's commitment. */
  lemma {:induction false} RevealedSharesMatch(env: Env, policy: Policy, ms: seq<Message>)
    requires forall i :: 0 <= i < |ms| ==> !ms[i].SubmitShare?
    ensures SharesMatchCommitments(env, After(env, NewSession(policy), ms))
  {
    if ms != [] {
      var before := ms[..|ms| - 1];
      RevealedSharesMatch(env, policy, before);
      RevealKeepsMatching(env, After(env, NewSession(policy), before), ms[|ms| - 1]);
    }
  }

  // ----- What the digest commits to -----

  /** The bytes a session's digest is the digest of. */
  ghost function SessionText(env: Env, shares: map<string, bytes>): bytes {
    Transcript(env, InOrder(shares.Keys), shares)
  }

  predicate Collides(env: Env, x: bytes, y: bytes) {
    x != y && env.digest(x) == env.digest(y)
  }

  predicate SameLengths(names: seq<string>, a: map<string, bytes>, b: map<string, bytes>) {
    forall p :: p in names ==> p in a && p in b && |a[p]| == |b[p]|
  }

  lemma EqualEnds(head: bytes, head': bytes, name: bytes, end: bytes, end': bytes)
    requires |end| == |end'| && head + name + end == head' + name + end'
    ensures head == head' && end == end'
  {
    var whole := head + name + end;
    assert |head| == |head'|;
    assert head == whole[..|head|] && head' == whole[..|head|];
    assert end == whole[|whole| - |end|..] && end' == whole[|whole| - |end|..];
  }

  /** Over one list of names, with lengths that agree, equal texts mean equal shares. */
  lemma {:induction false} TranscriptBinds(env: Env, names: seq<string>, a: map<string, bytes>, b: map<string, bytes>)
    requires SameLengths(names, a, b) && Transcript(env, names, a) == Transcript(env, names, b)
    ensures forall p :: p in names ==> a[p] == b[p]
  {
    if names != [] {
      var init, last := names[..|names| - 1], names[|names| - 1];
      assert last in names && forall p :: p in init ==> p in names;
      var head, head' := Transcript(env, init, a), Transcript(env, init, b);
      assert Transcript(env, names, a) == head + env.utf8(last) + a[last];
      assert Transcript(env, names, b) == head' + env.utf8(last) + b[last];
      EqualEnds(head, head', env.utf8(last), a[last], b[last]);
      TranscriptBinds(env, init, a, b);
      assert names == init + [last];
    }
  }

  predicate SameFrame(a: map<string, bytes>, b: map<string, bytes>) {
    a.Keys == b.Keys && forall p :: p in a ==> |a[p]| == |b[p]|
  }

  /**
   What the digest commits to: two share maps with one digest are equal exactly when they have the
   same parties and the same share lengths, unless the texts of these two maps collide.
   */
  lemma DigestBindsShares(env: Env, a: map<string, bytes>, b: map<string, bytes>)
    requires Digest(env, a) == Digest(env, b)
    ensures Collides(env, SessionText(env, a), SessionText(env, b)) || (a == b <==> SameFrame(a, b))
  {
    assert Digest(env, a) == env.digest(SessionText(env, a)) && Digest(env, b) == env.digest(SessionText(env, b));
    if SessionText(env, a) == SessionText(env, b) && SameFrame(a, b) {
      var names := InOrder(a.Keys);
      assert forall p :: p in names <==> p in a;
      TranscriptBinds(env, names, a, b);
    }
  }

  /** Over the same parties and lengths, digests agree exactly for equal shares, or for colliding texts. */
  lemma DigestsAgreeIff(env: Env, a: map<string, bytes>, b: map<string, bytes>)
    requires SameFrame(a, b)
    ensures Digest(env, a) == Digest(env, b) <==> a == b || Collides(env, SessionText(env, a), SessionText(env, b))
  {
    assert Digest(env, a) == env.digest(SessionText(env, a)) && Digest(env, b) == env.digest(SessionText(env, b));
    if Digest(env, a) == Digest(env, b) {
      DigestBindsShares(env, a, b);
    }
  }

  /**
   Parties and lengths are not covered: names and shares are hashed with no boundary
   between them.  With an encoding that maps concatenation to concatenation, as UTF-8 does, letters
   move from the share to the name unnoticed.
   */
  lemma DigestJoinsNameAndShare(env: Env, name: string, letters: string, share: bytes)
    requires letters != [] && env.utf8(name + letters) == env.utf8(name) + env.utf8(letters)
    ensures var a, b := map[name := env.utf8(letters) + share], map[name + letters := share];
            a != b && Digest(env, a) == Digest(env, b)
  {
    SingleDigest(env, name, env.utf8(letters) + share);
    SingleDigest(env, name + letters, share);
    assert env.utf8(name) + (env.utf8(letters) + share) == env.utf8(name) + env.utf8(letters) + share;
    assert |name + letters| != |name|;
    assert name in map[name := env.utf8(letters) + share] && name !in map[name + letters := share];
  }

  lemma SingleDigest(env: Env, name: string, share: bytes)
    ensures Digest(env, map[name := share]) == env.digest(env.utf8(name) + share)
  {
    var shares := map[name := share];
    assert SortedNames([name], shares.Keys);
    SortedNamesUnique([name], InOrder(shares.Keys), shares.Keys);
    assert [name][..0] == [];
    assert Transcript(env, [name], shares) == [] + env.utf8(name) + share == env.utf8(name) + share;
  }
}
