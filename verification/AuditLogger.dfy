/**
 The hash-chained log of `abir_guard/__init__.py`.

 `encode` stands for the JSON text with sorted keys and `sha` for the hexadecimal digest of a text.
 Both are arbitrary functions: results that depend on their strength point at two entries of the
 logs in question with one text, or with two texts of one digest, instead of assuming there are
 none.  Entries are dictionaries, as the verifier may be handed any.
 */
module AuditLogger {
  import opened Bytes

  /** A number is a double, given by its bits. */
  datatype Json = Number(bits: u64) | Text(s: string) | Flag(b: bool)

  type Entry = map<string, Json>

  type Encoder = Entry -> string
  type Hash = string -> string

  datatype Event = Event(ts: u64, action: string, keyId: string, success: bool, details: string)

  function Digest(encode: Encoder, sha: Hash, e: Entry): Json {
    Text(sha(encode(e)))
  }

  function Unhashed(e: Entry): Entry {
    e - {"hash"}
  }

  /** The entry `log` builds for an event before it adds the hash. */
  function Draft(encode: Encoder, sha: Hash, entries: seq<Entry>, event: Event): Entry {
    var fields := map["ts" := Number(event.ts), "action" := Text(event.action), "key_id" := Text(event.keyId),
                      "ok" := Flag(event.success), "details" := Text(event.details)];
    if entries == [] then fields
    else fields["prev_hash" := Digest(encode, sha, entries[|entries| - 1])]
  }

  /** The entry `log` appends for an event. */
  function Appended(encode: Encoder, sha: Hash, entries: seq<Entry>, event: Event): Entry {
    var draft := Draft(encode, sha, entries, event);
    draft["hash" := Digest(encode, sha, draft)]
  }

  /** Entry `i` carries its own digest and that of its predecessor, if and only if it has one. */
  predicate EntryVerifies(encode: Encoder, sha: Hash, entries: seq<Entry>, i: nat)
    requires i < |entries|
  {
    var e := entries[i];
    && "hash" in e && e["hash"] == Digest(encode, sha, Unhashed(e))
    && if i == 0 then "prev_hash" !in e
       else "prev_hash" in e && e["prev_hash"] == Digest(encode, sha, entries[i - 1])
  }

  predicate Verifies(encode: Encoder, sha: Hash, entries: seq<Entry>) {
    forall i :: 0 <= i < |entries| ==> EntryVerifies(encode, sha, entries, i)
  }

  // ----- What an entry says, field by field -----

  /** Entry `i` verifies: its hash is that of the rest of it, and it names its predecessor's, if it has one. */
  predicate LinksAt(encode: Encoder, sha: Hash, entries: seq<Entry>, i: nat)
    requires i < |entries|
  {
    var e := entries[i];
    && "hash" in e && e["hash"] == Text(sha(encode(map k | k in e && k != "hash" :: e[k])))
    && ("prev_hash" in e <==> i > 0)
    && (i > 0 ==> e["prev_hash"] == Text(sha(encode(entries[i - 1]))))
  }

  /** Entry `i` records an event: its five fields, the link, and nothing else. */
  predicate RecordsAt(encode: Encoder, sha: Hash, entries: seq<Entry>, i: nat, event: Event)
    requires i < |entries|
  {
    var e := entries[i];
    && e.Keys == {"ts", "action", "key_id", "ok", "details", "hash"} + (if i > 0 then {"prev_hash"} else {})
    && e["ts"] == Number(event.ts) && e["action"] == Text(event.action) && e["key_id"] == Text(event.keyId)
    && e["ok"] == Flag(event.success) && e["details"] == Text(event.details)
    && LinksAt(encode, sha, entries, i)
  }

  lemma AppendedRecords(encode: Encoder, sha: Hash, entries: seq<Entry>, event: Event)
    ensures RecordsAt(encode, sha, entries + [Appended(encode, sha, entries, event)], |entries|, event)
  {
    var draft := Draft(encode, sha, entries, event);
    var e := Appended(encode, sha, entries, event);
    assert Unhashed(e) == draft;
    WithoutHash(e);
  }

  lemma WithoutHash(e: Entry)
    ensures (map k | k in e && k != "hash" :: e[k]) == Unhashed(e)
  {
  }

  lemma LinksIff(encode: Encoder, sha: Hash, entries: seq<Entry>, i: nat)
    requires i < |entries|
    ensures EntryVerifies(encode, sha, entries, i) <==> LinksAt(encode, sha, entries, i)
  {
    WithoutHash(entries[i]);
  }

  class AuditLogger {
    const encode: Encoder
    const sha: Hash
    var entries: seq<Entry>

    constructor (encode: Encoder, sha: Hash)
      ensures this.encode == encode && this.sha == sha && entries == []
    {
      this.encode, this.sha, entries := encode, sha, [];
    }

    method Log(event: Event)
      modifies this
      ensures entries == old(entries) + [Appended(encode, sha, old(entries), event)]
      ensures |entries| == |old(entries)| + 1 && entries[..|old(entries)|] == old(entries)
      ensures RecordsAt(encode, sha, entries, |old(entries)|, event)
    {
      AppendedRecords(encode, sha, entries, event);
      var entry := map["ts" := Number(event.ts), "action" := Text(event.action), "key_id" := Text(event.keyId),
                       "ok" := Flag(event.success), "details" := Text(event.details)];
      if entries != [] {
        entry := entry["prev_hash" := Text(sha(encode(entries[|entries| - 1])))];
      }
      entry := entry["hash" := Text(sha(encode(entry)))];
      entries := entries + [entry];
    }

    method VerifyIntegrity() returns (ok: bool)
      ensures ok <==> Verifies(encode, sha, entries)
      ensures ok <==> forall i :: 0 <= i < |entries| ==> LinksAt(encode, sha, entries, i)
    {
      forall i | 0 <= i < |entries|
        ensures EntryVerifies(encode, sha, entries, i) <==> LinksAt(encode, sha, entries, i)
      {
        LinksIff(encode, sha, entries, i);
      }
      for i := 0 to |entries|
        invariant forall k :: 0 <= k < i ==> EntryVerifies(encode, sha, entries, k)
      {
        var entry := entries[i];
        if i == 0 && "prev_hash" in entry {
          assert !EntryVerifies(encode, sha, entries, i);
          return false;
        }
        var check := entry - {"hash"};
        var expected := Text(sha(encode(check)));
        if "hash" !in entry || entry["hash"] != expected {
          assert !EntryVerifies(encode, sha, entries, i);
          return false;
        }
        if i > 0 {
          var prevHash := Text(sha(encode(entries[i - 1])));
          if "prev_hash" !in entry || entry["prev_hash"] != prevHash {
            assert !EntryVerifies(encode, sha, entries, i);
            return false;
          }
        }
      }
      return true;
    }
  }

  // ----- What the chain guarantees -----

  /** Appending keeps a log valid, so every log built by `log` verifies. */
  lemma AppendKeepsVerifies(encode: Encoder, sha: Hash, entries: seq<Entry>, event: Event)
    requires Verifies(encode, sha, entries)
    ensures Verifies(encode, sha, entries + [Appended(encode, sha, entries, event)])
  {
    var e := Appended(encode, sha, entries, event);
    var entries' := entries + [e];
    assert Unhashed(e) == Draft(encode, sha, entries, event);
    forall i | 0 <= i < |entries'|
      ensures EntryVerifies(encode, sha, entries', i)
    {
      if i < |entries| {
        assert EntryVerifies(encode, sha, entries, i);
      }
    }
  }

  function Built(encode: Encoder, sha: Hash, events: seq<Event>): seq<Entry> {
    if events == [] then []
    else
      var before := Built(encode, sha, events[..|events| - 1]);
      before + [Appended(encode, sha, before, events[|events| - 1])]
  }

  lemma {:induction false} BuiltVerifies(encode: Encoder, sha: Hash, events: seq<Event>)
    ensures Verifies(encode, sha, Built(encode, sha, events)) && |Built(encode, sha, events)| == |events|
  {
    if events != [] {
      BuiltVerifies(encode, sha, events[..|events| - 1]);
      AppendKeepsVerifies(encode, sha, Built(encode, sha, events[..|events| - 1]), events[|events| - 1]);
    }
  }

  /** A built log records its events, one entry each, in order. */
  lemma {:induction false} BuiltRecords(encode: Encoder, sha: Hash, events: seq<Event>)
    ensures |Built(encode, sha, events)| == |events|
    ensures forall i :: 0 <= i < |events| ==> RecordsAt(encode, sha, Built(encode, sha, events), i, events[i])
  {
    if events != [] {
      hide RecordsAt;
      var n := |events| - 1;
      var before := Built(encode, sha, events[..n]);
      BuiltRecords(encode, sha, events[..n]);
      AppendedRecords(encode, sha, before, events[n]);
      forall i | 0 <= i < n
        ensures RecordsAt(encode, sha, Built(encode, sha, events), i, events[i])
      {
        assert RecordsAt(encode, sha, before, i, events[..n][i]);
        StillRecords(encode, sha, before, Appended(encode, sha, before, events[n]), i, events[i]);
      }
    }
  }

  lemma StillRecords(encode: Encoder, sha: Hash, before: seq<Entry>, e: Entry, i: nat, event: Event)
    requires i < |before| && RecordsAt(encode, sha, before, i, event)
    ensures RecordsAt(encode, sha, before + [e], i, event)
  {
  }

  /**
   A stretch of a valid log is itself valid exactly when it starts at the beginning: cutting the
   head off is detected, cutting the tail off is not.
   */
  lemma StretchVerifiesIff(encode: Encoder, sha: Hash, entries: seq<Entry>, i: nat, j: nat)
    requires Verifies(encode, sha, entries) && i < j <= |entries|
    ensures Verifies(encode, sha, entries[i..j]) <==> i == 0
  {
    var stretch := entries[i..j];
    if i == 0 {
      forall k | 0 <= k < j
        ensures EntryVerifies(encode, sha, stretch, k)
      {
        assert EntryVerifies(encode, sha, entries, k);
      }
    } else {
      assert EntryVerifies(encode, sha, entries, i) && stretch[0] == entries[i];
      assert !EntryVerifies(encode, sha, stretch, 0);
    }
  }

  /** Two different entries with one digest: their texts collide, or are one text. */
  predicate Confused(encode: Encoder, sha: Hash, e: Entry, e': Entry) {
    && e != e'
    && (encode(e) == encode(e') || (encode(e) != encode(e') && sha(encode(e)) == sha(encode(e'))))
  }

  lemma SameDigest(encode: Encoder, sha: Hash, e: Entry, e': Entry)
    requires Digest(encode, sha, e) == Digest(encode, sha, e')
    ensures e == e' || Confused(encode, sha, e, e')
  {
  }

  /** The entries `k` places from the end, of which the hash covers all but its own field in the last one. */
  function Covered(entries: seq<Entry>, k: nat): Entry
    requires k < |entries|
  {
    if k == 0 then Unhashed(entries[|entries| - 1]) else entries[|entries| - 1 - k]
  }

  lemma SameUnhashed(e: Entry, e': Entry)
    requires "hash" in e && "hash" in e' && e["hash"] == e'["hash"] && Unhashed(e) == Unhashed(e')
    ensures e == e'
  {
    assert e == Unhashed(e)["hash" := e["hash"]];
    assert e' == Unhashed(e')["hash" := e'["hash"]];
  }

  /** The last `k` entries of two logs are equal. */
  predicate AgreeFromEnd(a: seq<Entry>, b: seq<Entry>, k: nat)
    requires k <= |a| && k <= |b|
  {
    a[|a| - k..] == b[|b| - k..]
  }

  /** Links give equal digests one step further back, or end both logs together. */
  lemma LinkedBack(encode: Encoder, sha: Hash, a: seq<Entry>, b: seq<Entry>, k: nat)
    requires Verifies(encode, sha, a) && Verifies(encode, sha, b)
    requires 0 < k <= |a| && k <= |b| && a[|a| - k] == b[|b| - k]
    ensures k == |a| <==> k == |b|
    ensures k < |a| && k < |b| ==> sha(encode(a[|a| - 1 - k])) == sha(encode(b[|b| - 1 - k]))
  {
    assert EntryVerifies(encode, sha, a, |a| - k) && EntryVerifies(encode, sha, b, |b| - k);
  }

  /**
   The last hash commits to the whole log.  Walking back from the end, two valid logs that end in
   the same hash have equal entries; they are equal to the beginning, length included, unless at
   some entry they differ although the two entries have one digest.
   */
  lemma LastHashCommits(encode: Encoder, sha: Hash, a: seq<Entry>, b: seq<Entry>) returns (k: nat)
    requires Verifies(encode, sha, a) && Verifies(encode, sha, b)
    requires a != [] && b != [] && "hash" in a[|a| - 1] && "hash" in b[|b| - 1]
    requires a[|a| - 1]["hash"] == b[|b| - 1]["hash"]
    ensures k <= |a| && k <= |b| && AgreeFromEnd(a, b, k)
    ensures a == b || (k < |a| && k < |b| && Confused(encode, sha, Covered(a, k), Covered(b, k)))
  {
    assert EntryVerifies(encode, sha, a, |a| - 1) && EntryVerifies(encode, sha, b, |b| - 1);
    SameDigest(encode, sha, Unhashed(a[|a| - 1]), Unhashed(b[|b| - 1]));
    if Unhashed(a[|a| - 1]) != Unhashed(b[|b| - 1]) {
      return 0;
    }
    SameUnhashed(a[|a| - 1], b[|b| - 1]);
    k := 1;
    while k < |a| && k < |b| && a[|a| - 1 - k] == b[|b| - 1 - k]
      invariant 0 < k <= |a| && k <= |b| && AgreeFromEnd(a, b, k)
      invariant a[|a| - k] == b[|b| - k]
    {
      assert a[|a| - (k + 1)..] == [a[|a| - 1 - k]] + a[|a| - k..];
      assert b[|b| - (k + 1)..] == [b[|b| - 1 - k]] + b[|b| - k..];
      k := k + 1;
    }
    LinkedBack(encode, sha, a, b, k);
    if k == |a| {
      assert a[0..] == a && b[0..] == b;
    }
  }

  /** With an encoding that tells the entries of the two logs apart, only a collision can hide a difference. */
  lemma LastHashCommitsApart(encode: Encoder, sha: Hash, a: seq<Entry>, b: seq<Entry>) returns (k: nat)
    requires Verifies(encode, sha, a) && Verifies(encode, sha, b)
    requires a != [] && b != [] && "hash" in a[|a| - 1] && "hash" in b[|b| - 1]
    requires a[|a| - 1]["hash"] == b[|b| - 1]["hash"]
    requires forall j :: 0 <= j < |a| && j < |b| && Covered(a, j) != Covered(b, j) ==>
      encode(Covered(a, j)) != encode(Covered(b, j))
    ensures a == b || (k < |a| && k < |b| && encode(Covered(a, k)) != encode(Covered(b, k))
                       && sha(encode(Covered(a, k))) == sha(encode(Covered(b, k))))
  {
    k := LastHashCommits(encode, sha, a, b);
  }
}
