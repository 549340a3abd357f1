/**
 The hash-chained event log of `src/audit/audit_log.rs`.

 `hash` stands for SHA-256: any function from byte strings to 32 bytes.  Text is its UTF-8 bytes.
 */
module AuditLog {
  import opened Bytes

  datatype Option<T> = None | Some(value: T)

  datatype AuditError = EmptyActor | EmptyAction | ChainBroken(index: nat) | EmptyLog

  datatype Result = Ok | Err(error: AuditError)

  datatype Severity = Info | Warning | Critical

  datatype Entry = Entry(index: nat, timestamp: u64, actor: bytes, action: bytes, detail: Option<bytes>,
                         severity: Severity, entryHash: bytes)

  type Hash = bytes -> bytes

  ghost predicate Is256Bit(hash: Hash) {
    forall x: bytes :: |hash(x)| == 32
  }

  function ZeroBytes(n: nat): (s: bytes)
    ensures |s| == n
  {
    if n == 0 then [] else [0] + ZeroBytes(n - 1)
  }

  const GENESIS: bytes := ZeroBytes(32)

  // ----- The hashed text -----

  function DetailText(e: Entry): bytes {
    match e.detail case None => [] case Some(text) => text
  }

  /** Actor, action and detail run together, without separators. */
  function Content(e: Entry): bytes {
    e.actor + e.action + DetailText(e)
  }

  function Preimage(prevHash: bytes, e: Entry): bytes {
    prevHash + Le64(e.timestamp) + Content(e)
  }

  predicate SameContent(e: Entry, e': Entry) {
    e.timestamp == e'.timestamp && Content(e) == Content(e')
  }

  lemma PreimageParts(prev: bytes, e: Entry, prev': bytes, e': Entry)
    requires |prev| == |prev'|
    ensures Preimage(prev, e) == Preimage(prev', e') <==> prev == prev' && SameContent(e, e')
  {
    var x, x' := Preimage(prev, e), Preimage(prev', e');
    var n := |prev|;
    assert x[..n] == prev && x[n..n + 8] == Le64(e.timestamp) && x[n + 8..] == Content(e);
    assert x'[..n] == prev' && x'[n..n + 8] == Le64(e'.timestamp) && x'[n + 8..] == Content(e');
    if x == x' {
      Le64Injective(e.timestamp, e'.timestamp);
    }
  }

  // ----- The log -----

  function PrevHash(entries: seq<Entry>, i: nat): bytes
    requires i <= |entries|
  {
    if i == 0 then GENESIS else entries[i - 1].entryHash
  }

  predicate Linked(hash: Hash, entries: seq<Entry>, i: nat)
    requires i < |entries|
  {
    entries[i].entryHash == hash(Preimage(PrevHash(entries, i), entries[i]))
  }

  predicate Chained(hash: Hash, entries: seq<Entry>) {
    forall i :: 0 <= i < |entries| ==> Linked(hash, entries, i)
  }

  lemma GenesisIsZero()
    ensures GENESIS == seq(32, _ => 0)
  {
    ZeroBytesAreZero(32);
  }

  lemma {:induction false} ZeroBytesAreZero(n: nat)
    ensures forall i :: 0 <= i < n ==> ZeroBytes(n)[i] == 0
  {
    if n > 0 {
      ZeroBytesAreZero(n - 1);
    }
  }

  /**
   Entry `i` carries the digest of the hash before it, or 32 zeros, then its timestamp, actor, action
   and detail, an absent detail counting as empty.
   */
  predicate HashesTo(hash: Hash, entries: seq<Entry>, i: nat)
    requires i < |entries|
  {
    var e := entries[i];
    var prev: bytes := if i == 0 then seq(32, _ => 0) else entries[i - 1].entryHash;
    var text: bytes := if e.detail.Some? then e.detail.value else [];
    e.entryHash == hash(prev + Le64(e.timestamp) + e.actor + e.action + text)
  }

  lemma LinkedIff(hash: Hash, entries: seq<Entry>, i: nat)
    requires i < |entries|
    ensures Linked(hash, entries, i) <==> HashesTo(hash, entries, i)
  {
    GenesisIsZero();
    var e := entries[i];
    assert PrevHash(entries, i) + Le64(e.timestamp) + (e.actor + e.action + DetailText(e))
        == PrevHash(entries, i) + Le64(e.timestamp) + e.actor + e.action + DetailText(e);
  }

  function NewEntry(hash: Hash, entries: seq<Entry>, timestamp: u64, actor: bytes, action: bytes,
                    detail: Option<bytes>, severity: Severity): Entry
  {
    var draft := Entry(|entries|, timestamp, actor, action, detail, severity, []);
    draft.(entryHash := hash(Preimage(PrevHash(entries, |entries|), draft)))
  }

  lemma NewEntryIs(hash: Hash, entries: seq<Entry>, timestamp: u64, actor: bytes, action: bytes,
                   detail: Option<bytes>, severity: Severity)
    ensures var prev: bytes := if entries == [] then seq(32, _ => 0) else entries[|entries| - 1].entryHash;
            var text: bytes := if detail.Some? then detail.value else [];
            NewEntry(hash, entries, timestamp, actor, action, detail, severity)
              == Entry(|entries|, timestamp, actor, action, detail, severity,
                       hash(prev + Le64(timestamp) + actor + action + text))
  {
    GenesisIsZero();
    var prev: bytes := if entries == [] then seq(32, _ => 0) else entries[|entries| - 1].entryHash;
    var text: bytes := if detail.Some? then detail.value else [];
    assert prev + Le64(timestamp) + (actor + action + text) == prev + Le64(timestamp) + actor + action + text;
  }

  class AuditLog {
    const hash: Hash
    var entries: seq<Entry>

    constructor (hash: Hash)
      ensures this.hash == hash && entries == []
    {
      this.hash, entries := hash, [];
    }

    method Append(timestamp: u64, actor: bytes, action: bytes, detail: Option<bytes>, severity: Severity)
      returns (r: Result)
      modifies this
      ensures r == if actor == [] then Err(EmptyActor) else if action == [] then Err(EmptyAction) else Ok
      ensures entries == old(entries) +
        if r.Ok? then [NewEntry(hash, old(entries), timestamp, actor, action, detail, severity)] else []
      // The new entry records the event at the next index, hashed after the hash before it.
      ensures r.Ok? ==>
        var prev: bytes := if old(entries) == [] then seq(32, _ => 0) else old(entries)[|old(entries)| - 1].entryHash;
        var text: bytes := if detail.Some? then detail.value else [];
        entries == old(entries) + [Entry(|old(entries)|, timestamp, actor, action, detail, severity,
                                         hash(prev + Le64(timestamp) + actor + action + text))]
    {
      NewEntryIs(hash, entries, timestamp, actor, action, detail, severity);
      if actor == [] {
        return Err(EmptyActor);
      }
      if action == [] {
        return Err(EmptyAction);
      }
      var prevHash := if entries == [] then GENESIS else entries[|entries| - 1].entryHash;
      var text := match detail case None => [] case Some(d) => d;
      var entryHash := hash(prevHash + Le64(timestamp) + (actor + action + text));
      entries := entries + [Entry(|entries|, timestamp, actor, action, detail, severity, entryHash)];
      return Ok;
    }

    method VerifyChain() returns (r: Result)
      ensures r.Ok? <==> entries != [] && Chained(hash, entries)
      ensures r == Err(EmptyLog) <==> entries == []
      ensures r.Ok? ==> forall i :: 0 <= i < |entries| ==> HashesTo(hash, entries, i)
      ensures entries != [] && (forall i :: 0 <= i < |entries| ==> HashesTo(hash, entries, i)) ==> r.Ok?
      ensures r.Err? && entries != [] ==> r.error.ChainBroken? && r.error.index < |entries|
      ensures r.Err? && entries != [] ==> !Linked(hash, entries, r.error.index)
      ensures r.Err? && entries != [] ==> forall k :: 0 <= k < r.error.index ==> Linked(hash, entries, k)
    {
      forall i | 0 <= i < |entries|
        ensures Linked(hash, entries, i) <==> HashesTo(hash, entries, i)
      {
        LinkedIff(hash, entries, i);
      }
      if entries == [] {
        return Err(EmptyLog);
      }
      var prevHash := GENESIS;
      for i := 0 to |entries|
        invariant prevHash == PrevHash(entries, i)
        invariant forall k :: 0 <= k < i ==> Linked(hash, entries, k)
      {
        var entry := entries[i];
        var expected := hash(Preimage(prevHash, entry));
        if expected != entry.entryHash {
          assert !Linked(hash, entries, i);
          return Err(ChainBroken(i));
        }
        prevHash := entry.entryHash;
      }
      return Ok;
    }
  }

  // ----- What the chain guarantees -----

  /** Every appended entry links, so a log built by `append` verifies. */
  lemma AppendKeepsChained(hash: Hash, entries: seq<Entry>, timestamp: u64, actor: bytes, action: bytes,
                           detail: Option<bytes>, severity: Severity)
    requires Chained(hash, entries)
    ensures Chained(hash, entries + [NewEntry(hash, entries, timestamp, actor, action, detail, severity)])
  {
    var e := NewEntry(hash, entries, timestamp, actor, action, detail, severity);
    var entries' := entries + [e];
    forall i | 0 <= i < |entries'|
      ensures Linked(hash, entries', i)
    {
      if i < |entries| {
        assert Linked(hash, entries, i);
      } else {
        assert Preimage(PrevHash(entries, i), e) == Preimage(PrevHash(entries, i), e.(entryHash := []));
      }
    }
  }

  datatype Event = Event(timestamp: u64, actor: bytes, action: bytes, detail: Option<bytes>, severity: Severity)

  predicate Refused(event: Event) {
    event.actor == [] || event.action == []
  }

  /** The log after a sequence of appends, refused ones among them. */
  function Built(hash: Hash, events: seq<Event>): (entries: seq<Entry>) {
    if events == [] then []
    else
      var before, e := Built(hash, events[..|events| - 1]), events[|events| - 1];
      if Refused(e) then before
      else before + [NewEntry(hash, before, e.timestamp, e.actor, e.action, e.detail, e.severity)]
  }

  function AcceptedEvents(events: seq<Event>): seq<Event> {
    if events == [] then []
    else
      var before, e := AcceptedEvents(events[..|events| - 1]), events[|events| - 1];
      if Refused(e) then before else before + [e]
  }

  predicate Records(entry: Entry, index: nat, event: Event) {
    entry.(entryHash := []) == Entry(index, event.timestamp, event.actor, event.action, event.detail, event.severity, [])
  }

  /**
   After any sequence of appends the chain is linked, so verification accepts every log that is not
   empty, and the entries record exactly the accepted events, numbered from 0 in order.
   */
  lemma {:induction false} BuiltIsChained(hash: Hash, events: seq<Event>)
    ensures var entries, accepted := Built(hash, events), AcceptedEvents(events);
            && Chained(hash, entries) && |entries| == |accepted|
            && forall i :: 0 <= i < |entries| ==> Records(entries[i], i, accepted[i])
  {
    if events != [] {
      var before, e := events[..|events| - 1], events[|events| - 1];
      BuiltIsChained(hash, before);
      if !Refused(e) {
        AppendKeepsChained(hash, Built(hash, before), e.timestamp, e.actor, e.action, e.detail, e.severity);
      }
    }
  }

  // ----- What the final hash commits to -----

  /** The text whose digest entry `i` should carry. */
  function EntryText(entries: seq<Entry>, i: nat): bytes
    requires i < |entries|
  {
    Preimage(PrevHash(entries, i), entries[i])
  }

  predicate Collides(hash: Hash, x: bytes, y: bytes) {
    x != y && hash(x) == hash(y)
  }

  lemma PrevHashLength(hash: Hash, entries: seq<Entry>, n: nat)
    requires Is256Bit(hash) && Chained(hash, entries) && n <= |entries|
    ensures |PrevHash(entries, n)| == 32
  {
    if n > 0 {
      assert Linked(hash, entries, n - 1);
    }
  }

  /** Whether the entries `j` places from the end of two logs agree. */
  predicate AgreeAt(a: seq<Entry>, b: seq<Entry>, j: nat)
    requires j < |a| && j < |b|
  {
    SameContent(a[|a| - 1 - j], b[|b| - 1 - j])
  }

  /** The last `k` entries of two logs agree on timestamp and on actor, action and detail run together. */
  predicate AgreeFromEnd(a: seq<Entry>, b: seq<Entry>, k: nat)
    requires k <= |a| && k <= |b|
  {
    forall j :: 0 <= j < k ==> AgreeAt(a, b, j)
  }

  /** The text of the entry before the last `k` has the all-zero digest a log starts from. */
  predicate StartsLate(hash: Hash, entries: seq<Entry>, k: nat) {
    k < |entries| && hash(EntryText(entries, |entries| - 1 - k)) == GENESIS
  }

  /** Why two logs with one final hash stop agreeing after their last `k` entries. */
  predicate PartAt(hash: Hash, a: seq<Entry>, b: seq<Entry>, k: nat)
    requires k <= |a| && k <= |b|
  {
    if k < |a| && k < |b| then Collides(hash, EntryText(a, |a| - 1 - k), EntryText(b, |b| - 1 - k))
    else StartsLate(hash, a, k) || StartsLate(hash, b, k)
  }

  /**
   The final hash commits to the log's contents.  Walking back from the end, two valid logs that end
   in the same hash agree, entry by entry, on the timestamp and on the bytes of actor, action and
   detail run together.  They agree to the end and have one length, unless at some entry the two
   hashed texts collide, or one log is used up and the next entry of the other hashes to zero.
   */
  lemma {:induction false} FinalHashCommits(hash: Hash, a: seq<Entry>, b: seq<Entry>) returns (k: nat)
    requires Is256Bit(hash) && Chained(hash, a) && Chained(hash, b) && a != [] && b != []
    requires a[|a| - 1].entryHash == b[|b| - 1].entryHash
    ensures k <= |a| && k <= |b| && AgreeFromEnd(a, b, k)
    ensures k == |a| == |b| || PartAt(hash, a, b, k)
    decreases |a|
  {
    var m, n := |a| - 1, |b| - 1;
    assert Linked(hash, a, m) && Linked(hash, b, n);
    PrevHashLength(hash, a, m);
    PrevHashLength(hash, b, n);
    PreimageParts(PrevHash(a, m), a[m], PrevHash(b, n), b[n]);
    if EntryText(a, m) != EntryText(b, n) {
      k := 0;
    } else if m == 0 || n == 0 {
      k := 1;
      assert m > 0 ==> Linked(hash, a, m - 1);
      assert n > 0 ==> Linked(hash, b, n - 1);
    } else {
      PrefixChained(hash, a, m);
      PrefixChained(hash, b, n);
      k := FinalHashCommits(hash, a[..m], b[..n]);
      Lengthened(hash, a, b, k);
      k := k + 1;
    }
  }

  /** What holds `k` entries from the end of two logs holds one entry further back in the longer ones. */
  lemma Lengthened(hash: Hash, a: seq<Entry>, b: seq<Entry>, k: nat)
    requires a != [] && b != [] && k < |a| && k < |b|
    requires SameContent(a[|a| - 1], b[|b| - 1]) && AgreeFromEnd(a[..|a| - 1], b[..|b| - 1], k)
    ensures AgreeFromEnd(a, b, k + 1)
    ensures PartAt(hash, a[..|a| - 1], b[..|b| - 1], k) ==> PartAt(hash, a, b, k + 1)
  {
    hide EntryText, SameContent, Collides;
    var m, n := |a| - 1, |b| - 1;
    forall j | 0 <= j < k + 1
      ensures AgreeAt(a, b, j)
    {
      if j > 0 {
        assert AgreeAt(a[..m], b[..n], j - 1);
      }
    }
    if k < m {
      TextOfPrefix(a, m, m - 1 - k);
    }
    if k < n {
      TextOfPrefix(b, n, n - 1 - k);
    }
  }

  lemma TextOfPrefix(entries: seq<Entry>, n: nat, i: nat)
    requires i < n <= |entries|
    ensures EntryText(entries[..n], i) == EntryText(entries, i)
  {
  }

  lemma PrefixChained(hash: Hash, entries: seq<Entry>, n: nat)
    requires Chained(hash, entries) && n <= |entries|
    ensures Chained(hash, entries[..n])
  {
    forall i | 0 <= i < n
      ensures Linked(hash, entries[..n], i)
    {
      assert Linked(hash, entries, i);
    }
  }

  /** Whether the entry after `i`, if there is one, still carries its digest when `i`'s hash becomes `hash'`. */
  predicate NextStillLinks(hash: Hash, entries: seq<Entry>, i: nat, hash': bytes)
    requires i < |entries|
  {
    i + 1 == |entries| || hash' == entries[i].entryHash
    || Collides(hash, Preimage(hash', entries[i + 1]), EntryText(entries, i + 1))
  }

  /**
   Exactly which edits of one entry escape, its stored hash included: the edited entry carries the
   digest of its own text, and it is the last entry, or its hash is the old one, or the two texts of
   the next entry collide.
   */
  lemma EditUndetectedIff(hash: Hash, entries: seq<Entry>, i: nat, edited: Entry)
    requires Is256Bit(hash) && Chained(hash, entries) && i < |entries|
    ensures Chained(hash, entries[i := edited]) <==>
              edited.entryHash == hash(Preimage(PrevHash(entries, i), edited))
              && NextStillLinks(hash, entries, i, edited.entryHash)
  {
    var entries' := entries[i := edited];
    assert PrevHash(entries', i) == PrevHash(entries, i);
    forall k | 0 <= k < |entries| && k != i && k != i + 1
      ensures Linked(hash, entries', k)
    {
      assert Linked(hash, entries, k) && PrevHash(entries', k) == PrevHash(entries, k);
    }
    if i + 1 < |entries| {
      assert Linked(hash, entries, i + 1) && PrevHash(entries', i + 1) == edited.entryHash;
      assert Linked(hash, entries', i + 1) <==>
        hash(Preimage(edited.entryHash, entries[i + 1])) == hash(EntryText(entries, i + 1));
      if |edited.entryHash| == 32 {
        PrevHashLength(hash, entries, i + 1);
        PreimageParts(edited.entryHash, entries[i + 1], entries[i].entryHash, entries[i + 1]);
      }
    }
    assert Linked(hash, entries', i) <==> edited.entryHash == hash(Preimage(PrevHash(entries, i), edited));
  }

  /**
   With the stored hash left alone an edit escapes if and only if it keeps the timestamp and the
   run-together text, or the two hashed texts collide.
   */
  lemma EditKeepingHashIff(hash: Hash, entries: seq<Entry>, i: nat, edited: Entry)
    requires Is256Bit(hash) && Chained(hash, entries) && i < |entries|
    requires edited.entryHash == entries[i].entryHash
    ensures Chained(hash, entries[i := edited]) <==>
              SameContent(edited, entries[i])
              || Collides(hash, Preimage(PrevHash(entries, i), edited), EntryText(entries, i))
  {
    PreimageParts(PrevHash(entries, i), edited, PrevHash(entries, i), entries[i]);
    assert Linked(hash, entries, i);
    EditUndetectedIff(hash, entries, i, edited);
  }

  // ----- Edits of one field, the stored hash left alone -----

  function TextOf(detail: Option<bytes>): bytes {
    if detail.Some? then detail.value else []
  }

  /** An edited detail escapes exactly when it has the same bytes, absent counting as empty, or by a collision. */
  lemma DetailEditIff(hash: Hash, entries: seq<Entry>, i: nat, detail: Option<bytes>)
    requires Is256Bit(hash) && Chained(hash, entries) && i < |entries|
    ensures var e := entries[i];
            var before := PrevHash(entries, i) + Le64(e.timestamp) + e.actor + e.action;
            Chained(hash, entries[i := e.(detail := detail)]) <==>
              TextOf(detail) == TextOf(e.detail) || Collides(hash, before + TextOf(detail), before + TextOf(e.detail))
  {
    var e := entries[i];
    FieldEdit(hash, entries, i, e.(detail := detail));
    Cancelled(e.actor + e.action, TextOf(detail), TextOf(e.detail), []);
  }

  /** An edited action escapes exactly when it is the same, or by a collision. */
  lemma ActionEditIff(hash: Hash, entries: seq<Entry>, i: nat, action: bytes)
    requires Is256Bit(hash) && Chained(hash, entries) && i < |entries|
    ensures var e := entries[i];
            var before, text := PrevHash(entries, i) + Le64(e.timestamp) + e.actor, TextOf(e.detail);
            Chained(hash, entries[i := e.(action := action)]) <==>
              action == e.action || Collides(hash, before + action + text, before + e.action + text)
  {
    var e := entries[i];
    FieldEdit(hash, entries, i, e.(action := action));
    Cancelled(e.actor, action, e.action, TextOf(e.detail));
  }

  /** An edited actor escapes exactly when it is the same, or by a collision. */
  lemma ActorEditIff(hash: Hash, entries: seq<Entry>, i: nat, actor: bytes)
    requires Is256Bit(hash) && Chained(hash, entries) && i < |entries|
    ensures var e := entries[i];
            var before, text := PrevHash(entries, i) + Le64(e.timestamp), TextOf(e.detail);
            Chained(hash, entries[i := e.(actor := actor)]) <==>
              actor == e.actor || Collides(hash, before + actor + e.action + text, before + e.actor + e.action + text)
  {
    var e := entries[i];
    FieldEdit(hash, entries, i, e.(actor := actor));
    Cancelled([], actor, e.actor, e.action + TextOf(e.detail));
    assert [] + actor + (e.action + TextOf(e.detail)) == actor + e.action + TextOf(e.detail);
    assert [] + e.actor + (e.action + TextOf(e.detail)) == e.actor + e.action + TextOf(e.detail);
  }

  lemma Cancelled(before: bytes, x: bytes, y: bytes, after: bytes)
    ensures before + x + after == before + y + after <==> x == y
  {
    var u, v := before + x + after, before + y + after;
    if u == v {
      assert |x| == |y|;
      assert x == u[|before|..|before| + |x|] && y == v[|before|..|before| + |y|];
    }
  }

  /** An edit that keeps hash and timestamp, in terms of the texts that are hashed. */
  lemma FieldEdit(hash: Hash, entries: seq<Entry>, i: nat, edited: Entry)
    requires Is256Bit(hash) && Chained(hash, entries) && i < |entries|
    requires edited.entryHash == entries[i].entryHash && edited.timestamp == entries[i].timestamp
    ensures var e := entries[i];
            var before := PrevHash(entries, i) + Le64(e.timestamp);
            Chained(hash, entries[i := edited]) <==>
              edited.actor + edited.action + TextOf(edited.detail) == e.actor + e.action + TextOf(e.detail)
              || Collides(hash, before + edited.actor + edited.action + TextOf(edited.detail),
                          before + e.actor + e.action + TextOf(e.detail))
  {
    var e := entries[i];
    var before := PrevHash(entries, i) + Le64(e.timestamp);
    EditKeepingHashIff(hash, entries, i, edited);
    assert Preimage(PrevHash(entries, i), edited) == before + edited.actor + edited.action + TextOf(edited.detail);
    assert EntryText(entries, i) == before + e.actor + e.action + TextOf(e.detail);
  }

  /** The last entry can be replaced whole: any content passes once its own hash is recomputed. */
  lemma LastRewritten(hash: Hash, entries: seq<Entry>, edited: Entry)
    requires Is256Bit(hash) && Chained(hash, entries) && entries != []
    ensures var n := |entries| - 1;
            Chained(hash, entries[n := edited.(entryHash := hash(Preimage(PrevHash(entries, n), edited)))])
  {
    var n := |entries| - 1;
    var rewritten := edited.(entryHash := hash(Preimage(PrevHash(entries, n), edited)));
    assert Preimage(PrevHash(entries, n), rewritten) == Preimage(PrevHash(entries, n), edited);
    EditUndetectedIff(hash, entries, n, rewritten);
  }

  /** `utf8` recognises the byte strings that are text; text after text is text. */
  ghost predicate JoinsText(utf8: bytes -> bool) {
    forall x: bytes, y: bytes :: utf8(x) && utf8(y) ==> utf8(x + y)
  }

  /**
   An edit that escapes whatever the hash, and leaves text where there was text: the last characters
   of the actor become the first of the action, and index and severity become anything.
   */
  lemma BoundaryIsNotCovered(hash: Hash, utf8: bytes -> bool, entries: seq<Entry>, i: nat, kept: bytes, moved: bytes,
                             index: nat, severity: Severity)
    requires Is256Bit(hash) && JoinsText(utf8) && Chained(hash, entries) && i < |entries|
    requires entries[i].actor == kept + moved && moved != []
    requires utf8(kept) && utf8(moved) && utf8(entries[i].action)
    ensures var e := entries[i];
            var edited := Entry(index, e.timestamp, kept, moved + e.action, e.detail, severity, e.entryHash);
            edited != e && utf8(edited.actor) && utf8(edited.action) && Chained(hash, entries[i := edited])
  {
    var e := entries[i];
    var edited := Entry(index, e.timestamp, kept, moved + e.action, e.detail, severity, e.entryHash);
    assert kept + (moved + e.action) == (kept + moved) + e.action;
    assert Content(edited) == Content(e);
    assert |edited.actor| != |e.actor|;
    EditKeepingHashIff(hash, entries, i, edited);
  }
}
