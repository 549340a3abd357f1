/**
 The bounded cache of derived keys, `src/performance/key_cache.rs`.

 `Primitives` holds the two library functions: the digest used in cache keys and the 32-byte key
 derivation (which includes the lossy reading of the password as text, and may refuse its inputs).  `DerivedKeyCache` is the
 class; `Cache` is its value, on which the specification functions and the runs are stated.
 */
module KeyCache {
  import opened Bytes

  datatype Option<T> = None | Some(value: T)

  datatype Primitives = Primitives(digest: bytes -> bytes, derive: (bytes, bytes) -> Option<bytes>) {
    ghost predicate Valid() {
      forall password: bytes, salt: bytes :: derive(password, salt).Some? ==> |derive(password, salt).value| == 32
    }
  }

  datatype CacheKey = CacheKey(passwordHash: bytes, saltHash: bytes, outputLen: nat)

  datatype CacheEntry = CacheEntry(keyBytes: bytes, hits: u64)

  datatype Cache = Cache(capacity: nat, entries: map<CacheKey, CacheEntry>, order: seq<CacheKey>,
                         totalHits: u64, totalMisses: u64)

  /** A miss panics when the derivation is refused, or slices past the end of the derived key. */
  datatype Answer = Key(keyBytes: bytes) | InvalidOutputLength | Panic

  function SaturatingInc(n: u64): u64 {
    if n == U64_MAX then n else n + 1
  }

  function KeyOf(prims: Primitives, password: bytes, salt: bytes, outputLen: nat): CacheKey {
    CacheKey(prims.digest(password), prims.digest(salt), outputLen)
  }

  /** The answer without any cache. */
  function Uncached(prims: Primitives, password: bytes, salt: bytes, outputLen: nat): Answer {
    if outputLen == 0 || outputLen > 64 then InvalidOutputLength
    else
      match prims.derive(password, salt)
      case None => Panic
      case Some(full) => if outputLen > |full| then Panic else Key(full[..outputLen])
  }

  // ----- What each operation does -----

  function Retain(order: seq<CacheKey>, key: CacheKey): seq<CacheKey> {
    if order == [] then []
    else
      var last := order[|order| - 1];
      var rest := Retain(order[..|order| - 1], key);
      if last != key then rest + [last] else rest
  }

  /** Retaining leaves out one key and only that. */
  lemma {:induction false} RetainsOthers(order: seq<CacheKey>, key: CacheKey)
    ensures key !in Retain(order, key) && forall k :: k != key ==> (k in Retain(order, key) <==> k in order)
  {
    if order != [] {
      var init, last := order[..|order| - 1], order[|order| - 1];
      RetainsOthers(init, key);
      assert order == init + [last];
    }
  }

  function Evict(c: Cache): Cache {
    if |c.entries| >= c.capacity && c.order != [] then
      c.(entries := c.entries - {c.order[0]}, order := c.order[1..])
    else c
  }

  function Push(room: Cache, key: CacheKey, keyBytes: bytes): Cache {
    room.(entries := room.entries[key := CacheEntry(keyBytes, 0)], order := room.order + [key])
  }

  function Insert(c: Cache, key: CacheKey, keyBytes: bytes): Cache {
    Push(Evict(c), key, keyBytes)
  }

  function Hit(c: Cache, key: CacheKey): Cache
    requires key in c.entries
  {
    var entry := c.entries[key];
    c.(entries := c.entries[key := entry.(hits := SaturatingInc(entry.hits))], totalHits := SaturatingInc(c.totalHits))
  }

  function Get(prims: Primitives, c: Cache, password: bytes, salt: bytes, outputLen: nat): (r: (Cache, Answer)) {
    var key := KeyOf(prims, password, salt, outputLen);
    if outputLen == 0 || outputLen > 64 then (c, InvalidOutputLength)
    else if key in c.entries then (Hit(c, key), Key(c.entries[key].keyBytes))
    else
      var missed := c.(totalMisses := SaturatingInc(c.totalMisses));
      match Uncached(prims, password, salt, outputLen)
      case Key(keyBytes) => (Insert(missed, key, keyBytes), Key(keyBytes))
      case answer => (missed, answer)
  }

  function Invalidated(c: Cache, key: CacheKey): Cache {
    if key in c.entries then c.(entries := c.entries - {key}, order := Retain(c.order, key)) else c
  }

  function Cleared(c: Cache): Cache {
    c.(entries := map[], order := [])
  }

  class DerivedKeyCache {
    const prims: Primitives
    const capacity: nat
    var entries: map<CacheKey, CacheEntry>
    var order: seq<CacheKey>
    var totalHits: u64
    var totalMisses: u64

    ghost function Value(): Cache
      reads this
    {
      Cache(capacity, entries, order, totalHits, totalMisses)
    }

    /** `new`, which refuses a capacity of 0 before it builds anything. */
    static method New(prims: Primitives, capacity: nat) returns (r: DerivedKeyCache?)
      ensures r == null <==> capacity == 0
      ensures r != null ==> fresh(r) && r.prims == prims && r.Value() == Cache(capacity, map[], [], 0, 0)
    {
      if capacity == 0 {
        return null;
      }
      r := new DerivedKeyCache(prims, capacity);
    }

    constructor (prims: Primitives, capacity: nat)
      requires capacity > 0
      ensures this.prims == prims && Value() == Cache(capacity, map[], [], 0, 0)
    {
      this.prims, this.capacity := prims, capacity;
      entries, order, totalHits, totalMisses := map[], [], 0, 0;
    }

    method GetOrDerive(password: bytes, salt: bytes, outputLen: nat) returns (r: Answer)
      modifies this
      ensures (Value(), r) == Get(prims, old(Value()), password, salt, outputLen)
      // A bad length changes nothing.
      ensures r == InvalidOutputLength <==> outputLen == 0 || outputLen > 64
      ensures r == InvalidOutputLength ==> Value() == old(Value())
      // A hit returns the stored bytes, counts itself on the entry and in total, and moves nothing.
      ensures var key := CacheKey(prims.digest(password), prims.digest(salt), outputLen);
        1 <= outputLen <= 64 && key in old(entries) ==>
          && r == Key(old(entries)[key].keyBytes) && order == old(order) && totalMisses == old(totalMisses)
          && totalHits == (if old(totalHits) == U64_MAX then U64_MAX else old(totalHits) + 1)
          && entries == old(entries)[key := CacheEntry(old(entries)[key].keyBytes,
               if old(entries)[key].hits == U64_MAX then U64_MAX else old(entries)[key].hits + 1)]
      // A miss counts itself, and derives; a key is stored last in the queue, the first one leaving a full cache.
      ensures var key := CacheKey(prims.digest(password), prims.digest(salt), outputLen);
        1 <= outputLen <= 64 && key !in old(entries) ==>
          && totalHits == old(totalHits)
          && totalMisses == (if old(totalMisses) == U64_MAX then U64_MAX else old(totalMisses) + 1)
          && var derived := prims.derive(password, salt);
             if derived.None? || outputLen > |derived.value| then
               r == Panic && entries == old(entries) && order == old(order)
             else
               var entry := CacheEntry(derived.value[..outputLen], 0);
               && r == Key(derived.value[..outputLen])
               && (if |old(entries)| >= capacity && old(order) != [] then
                     entries == (old(entries) - {old(order)[0]})[key := entry] && order == old(order)[1..] + [key]
                   else entries == old(entries)[key := entry] && order == old(order) + [key])
    {
      if outputLen == 0 || outputLen > 64 {
        return InvalidOutputLength;
      }
      var cacheKey := KeyOf(prims, password, salt, outputLen);
      if cacheKey in entries {
        var entry := entries[cacheKey];
        entries := entries[cacheKey := entry.(hits := SaturatingInc(entry.hits))];
        totalHits := SaturatingInc(totalHits);
        return Key(entry.keyBytes);
      }
      totalMisses := SaturatingInc(totalMisses);
      var derived := prims.derive(password, salt);
      if derived.None? {
        return Panic;
      }
      var fullKey := derived.value;
      if outputLen > |fullKey| {
        return Panic;
      }
      var keyBytes := fullKey[..outputLen];
      if |entries| >= capacity {
        if order != [] {
          var oldest := order[0];
          order := order[1..];
          entries := entries - {oldest};
        }
      }
      entries := entries[cacheKey := CacheEntry(keyBytes, 0)];
      order := order + [cacheKey];
      return Key(keyBytes);
    }

    method Invalidate(password: bytes, salt: bytes, outputLen: nat) returns (removed: bool)
      modifies this
      ensures removed <==> KeyOf(prims, password, salt, outputLen) in old(entries)
      ensures Value() == Invalidated(old(Value()), KeyOf(prims, password, salt, outputLen))
      ensures var key := CacheKey(prims.digest(password), prims.digest(salt), outputLen);
        && (removed <==> key in old(entries))
        && entries == old(entries) - {key}
        && totalHits == old(totalHits) && totalMisses == old(totalMisses)
        && (removed ==> key !in order && forall k :: k != key ==> (k in order <==> k in old(order)))
        && (!removed ==> order == old(order))
    {
      var key := KeyOf(prims, password, salt, outputLen);
      if key !in entries {
        return false;
      }
      entries := entries - {key};
      var kept: seq<CacheKey> := [];
      for i := 0 to |order|
        invariant kept == Retain(order[..i], key)
        invariant order == old(order) && entries == old(entries) - {key}
        invariant totalHits == old(totalHits) && totalMisses == old(totalMisses)
      {
        assert order[..i + 1][..i] == order[..i];
        if order[i] != key {
          kept := kept + [order[i]];
        }
      }
      assert order[..|order|] == order;
      RetainsOthers(order, key);
      order := kept;
      return true;
    }

    method Clear()
      modifies this
      ensures Value() == Cleared(old(Value()))
      ensures entries == map[] && order == [] && totalHits == old(totalHits) && totalMisses == old(totalMisses)
    {
      entries, order := map[], [];
    }
  }

  // ----- The invariant -----

  predicate NoDuplicates(order: seq<CacheKey>) {
    forall i, j :: 0 <= i < j < |order| ==> order[i] != order[j]
  }

  /** The queue lists the map's keys, each once, and there are never more than the capacity. */
  ghost predicate InStep(c: Cache) {
    c.capacity > 0 && |c.entries| <= c.capacity && Lists(c.order, c.entries.Keys)
  }

  ghost predicate Lists(order: seq<CacheKey>, keys: set<CacheKey>) {
    NoDuplicates(order) && forall k :: k in order <==> k in keys
  }

  /** Every cached answer was derived for one of the passwords and salts asked for, which has its cache key. */
  ghost predicate Derived(prims: Primitives, asked: set<(bytes, bytes)>, c: Cache) {
    forall k :: k in c.entries ==> HasOrigin(prims, asked, k, c.entries[k].keyBytes)
  }

  ghost predicate HasOrigin(prims: Primitives, asked: set<(bytes, bytes)>, k: CacheKey, keyBytes: bytes) {
    exists password, salt :: (password, salt) in asked && Origin(prims, k, keyBytes, password, salt)
  }

  predicate Origin(prims: Primitives, k: CacheKey, keyBytes: bytes, password: bytes, salt: bytes) {
    && k == KeyOf(prims, password, salt, k.outputLen)
    && Uncached(prims, password, salt, k.outputLen) == Key(keyBytes)
  }

  lemma {:induction false} ListsRetain(order: seq<CacheKey>, keys: set<CacheKey>, key: CacheKey)
    requires Lists(order, keys)
    ensures Lists(Retain(order, key), keys - {key})
  {
    if order != [] {
      var init, last := order[..|order| - 1], order[|order| - 1];
      assert order == init + [last];
      assert Lists(init, keys - {last});
      ListsRetain(init, keys - {last}, key);
      if last != key {
        ListsBackAdded(Retain(init, key), keys - {last} - {key}, last);
        assert keys - {last} - {key} + {last} == keys - {key};
      } else {
        assert keys - {last} - {key} == keys - {key};
      }
    }
  }

  lemma {:induction false} ListsSize(order: seq<CacheKey>, keys: set<CacheKey>)
    requires Lists(order, keys)
    ensures |keys| == |order|
  {
    if order == [] {
      assert keys == {};
    } else {
      var init, last := order[..|order| - 1], order[|order| - 1];
      assert order == init + [last];
      assert Lists(init, keys - {last});
      ListsSize(init, keys - {last});
      assert keys == (keys - {last}) + {last};
    }
  }

  lemma SameSize(c: Cache)
    requires InStep(c)
    ensures |c.order| == |c.entries|
  {
    ListsSize(c.order, c.entries.Keys);
  }

  lemma ListsFrontRemoved(order: seq<CacheKey>, keys: set<CacheKey>)
    requires Lists(order, keys) && order != []
    ensures Lists(order[1..], keys - {order[0]}) && order[0] in keys
  {
    forall k
      ensures k in order[1..] <==> k in keys - {order[0]}
    {
      assert order == [order[0]] + order[1..];
    }
  }

  lemma ListsBackAdded(order: seq<CacheKey>, keys: set<CacheKey>, key: CacheKey)
    requires Lists(order, keys) && key !in keys
    ensures Lists(order + [key], keys + {key})
  {
  }

  lemma EvictMakesRoom(c: Cache)
    requires InStep(c)
    ensures InStep(Evict(c)) && |Evict(c).entries| < c.capacity
    ensures Evict(c).entries.Keys <= c.entries.Keys
  {
    SameSize(c);
    if |c.entries| >= c.capacity {
      ListsFrontRemoved(c.order, c.entries.Keys);
      assert Evict(c).entries.Keys == c.entries.Keys - {c.order[0]};
    }
  }

  lemma PushKeepsInStep(room: Cache, key: CacheKey, keyBytes: bytes)
    requires InStep(room) && |room.entries| < room.capacity && key !in room.entries
    ensures InStep(Push(room, key, keyBytes))
  {
    ListsBackAdded(room.order, room.entries.Keys, key);
    assert Push(room, key, keyBytes).entries.Keys == room.entries.Keys + {key};
  }

  lemma InsertKeepsInStep(c: Cache, key: CacheKey, keyBytes: bytes)
    requires InStep(c) && key !in c.entries
    ensures InStep(Insert(c, key, keyBytes))
  {
    EvictMakesRoom(c);
    assert key !in Evict(c).entries.Keys;
    PushKeepsInStep(Evict(c), key, keyBytes);
  }

  lemma InvalidatedKeepsInStep(c: Cache, key: CacheKey)
    requires InStep(c)
    ensures InStep(Invalidated(c, key))
  {
    if key in c.entries {
      ListsRetain(c.order, c.entries.Keys, key);
      assert Invalidated(c, key).entries.Keys == c.entries.Keys - {key};
    }
  }

  datatype Op =
    | Ask(password: bytes, salt: bytes, outputLen: nat)
    | Drop(password: bytes, salt: bytes, outputLen: nat)
    | Clear

  function Apply(prims: Primitives, c: Cache, op: Op): Cache {
    match op
    case Ask(password, salt, outputLen) => Get(prims, c, password, salt, outputLen).0
    case Drop(password, salt, outputLen) => Invalidated(c, KeyOf(prims, password, salt, outputLen))
    case Clear => Cleared(c)
  }

  function After(prims: Primitives, c: Cache, ops: seq<Op>): Cache
    decreases |ops|
  {
    if ops == [] then c else After(prims, Apply(prims, c, ops[0]), ops[1..])
  }

  lemma ApplyKeepsInStep(prims: Primitives, c: Cache, op: Op)
    requires InStep(c)
    ensures InStep(Apply(prims, c, op)) && Apply(prims, c, op).capacity == c.capacity
  {
    match op
    case Ask(password, salt, outputLen) =>
      var key := KeyOf(prims, password, salt, outputLen);
      var answer := Uncached(prims, password, salt, outputLen);
      if key in c.entries {
        assert Hit(c, key).entries.Keys == c.entries.Keys;
      } else if answer.Key? {
        InsertKeepsInStep(c.(totalMisses := SaturatingInc(c.totalMisses)), key, answer.keyBytes);
      }
    case Drop(password, salt, outputLen) =>
      InvalidatedKeepsInStep(c, KeyOf(prims, password, salt, outputLen));
    case Clear =>
  }

  lemma InsertedEntry(c: Cache, key: CacheKey, keyBytes: bytes, k: CacheKey)
    requires k in Insert(c, key, keyBytes).entries
    ensures var entry := Insert(c, key, keyBytes).entries[k];
            if k == key then entry.keyBytes == keyBytes else k in c.entries && entry == c.entries[k]
  {
  }

  /** An entry after an operation was there before with the same bytes, or was just derived. */
  lemma EntryComesFrom(prims: Primitives, c: Cache, op: Op, k: CacheKey)
    requires k in Apply(prims, c, op).entries
    ensures var keyBytes := Apply(prims, c, op).entries[k].keyBytes;
            || (k in c.entries && keyBytes == c.entries[k].keyBytes)
            || (op.Ask? && Origin(prims, k, keyBytes, op.password, op.salt))
  {
    if Inserts(prims, c, op) {
      InsertedEntry(c.(totalMisses := SaturatingInc(c.totalMisses)),
                    KeyOf(prims, op.password, op.salt, op.outputLen),
                    Uncached(prims, op.password, op.salt, op.outputLen).keyBytes, k);
    }
  }

  /** The passwords and salts that a run asks for. */
  function AskedBy(ops: seq<Op>): set<(bytes, bytes)>
    decreases |ops|
  {
    if ops == [] then {} else AskedIn(ops[0]) + AskedBy(ops[1..])
  }

  function AskedIn(op: Op): set<(bytes, bytes)> {
    if op.Ask? then {(op.password, op.salt)} else {}
  }

  lemma ApplyKeepsDerived(prims: Primitives, asked: set<(bytes, bytes)>, c: Cache, op: Op)
    requires InStep(c) && Derived(prims, asked, c)
    ensures Derived(prims, asked + AskedIn(op), Apply(prims, c, op))
  {
    var c' := Apply(prims, c, op);
    forall k | k in c'.entries
      ensures HasOrigin(prims, asked + AskedIn(op), k, c'.entries[k].keyBytes)
    {
      EntryComesFrom(prims, c, op, k);
      if op.Ask? && Origin(prims, k, c'.entries[k].keyBytes, op.password, op.salt) {
        assert (op.password, op.salt) in asked + AskedIn(op);
      } else {
        assert HasOrigin(prims, asked, k, c.entries[k].keyBytes);
      }
    }
  }

  lemma {:induction false} RunKeepsInvariant(prims: Primitives, asked: set<(bytes, bytes)>, c: Cache, ops: seq<Op>)
    requires InStep(c) && Derived(prims, asked, c)
    ensures var c' := After(prims, c, ops);
            InStep(c') && Derived(prims, asked + AskedBy(ops), c') && c'.capacity == c.capacity
    decreases |ops|
  {
    hide Apply, InStep, Derived;
    if ops != [] {
      ApplyKeepsInStep(prims, c, ops[0]);
      ApplyKeepsDerived(prims, asked, c, ops[0]);
      RunKeepsInvariant(prims, asked + AskedIn(ops[0]), Apply(prims, c, ops[0]), ops[1..]);
      assert asked + AskedIn(ops[0]) + AskedBy(ops[1..]) == asked + AskedBy(ops);
    } else {
      assert asked + AskedBy(ops) == asked;
    }
  }

  lemma {:induction false} AfterLast(prims: Primitives, c: Cache, ops: seq<Op>, op: Op)
    ensures After(prims, c, ops + [op]) == Apply(prims, After(prims, c, ops), op)
    decreases |ops|
  {
    if ops != [] {
      AfterLast(prims, Apply(prims, c, ops[0]), ops[1..], op);
      assert (ops + [op])[1..] == ops[1..] + [op];
    } else {
      assert [op][1..] == [];
    }
  }

  /** After an invalidation that entry is gone, and no other. */
  lemma DroppedIsGone(prims: Primitives, c: Cache, ops: seq<Op>, password: bytes, salt: bytes, outputLen: nat)
    ensures var before, after := After(prims, c, ops), After(prims, c, ops + [Drop(password, salt, outputLen)]);
            after.entries == before.entries - {CacheKey(prims.digest(password), prims.digest(salt), outputLen)}
  {
    AfterLast(prims, c, ops, Drop(password, salt, outputLen));
  }

  /** After a clear the cache is empty. */
  lemma ClearedIsEmpty(prims: Primitives, c: Cache, ops: seq<Op>)
    ensures var after := After(prims, c, ops + [Clear]); after.entries == map[] && after.order == []
  {
    AfterLast(prims, c, ops, Clear);
  }

  /** Requests that pass the length check. */
  function Admitted(ops: seq<Op>): nat
    decreases |ops|
  {
    if ops == [] then 0
    else (if ops[0].Ask? && 1 <= ops[0].outputLen <= 64 then 1 else 0) + Admitted(ops[1..])
  }

  /**
   Below their ceiling the two counters together have counted every admitted request once, a
   panicking one included, and nothing else.
   */
  lemma {:induction false} CountersAddUp(prims: Primitives, c: Cache, ops: seq<Op>)
    ensures var c' := After(prims, c, ops);
            && c.totalHits <= c'.totalHits && c.totalMisses <= c'.totalMisses
            && (c'.totalHits < U64_MAX && c'.totalMisses < U64_MAX ==>
                  c'.totalHits as nat + c'.totalMisses as nat
                  == c.totalHits as nat + c.totalMisses as nat + Admitted(ops))
    decreases |ops|
  {
    if ops != [] {
      CountersAddUp(prims, Apply(prims, c, ops[0]), ops[1..]);
    }
  }

  /** A different password and salt with the same digests, and so the same cache key. */
  predicate Mistaken(prims: Primitives, password: bytes, salt: bytes, earlier: (bytes, bytes)) {
    && earlier != (password, salt)
    && prims.digest(earlier.0) == prims.digest(password) && prims.digest(earlier.1) == prims.digest(salt)
  }

  /**
   The cache is transparent: after any run of requests, invalidations and clears, an answer is the
   one the derivation itself would give, unless the run asked before for a different password or
   salt with the same digests.  The queue and the map stay in step throughout.
   */
  lemma CacheIsTransparent(prims: Primitives, capacity: nat, ops: seq<Op>, password: bytes, salt: bytes, outputLen: nat)
    returns (earlier: (bytes, bytes))
    requires capacity > 0
    ensures var c := After(prims, Cache(capacity, map[], [], 0, 0), ops);
            && InStep(c) && c.capacity == capacity
            && (Get(prims, c, password, salt, outputLen).1 == Uncached(prims, password, salt, outputLen)
                || (earlier in AskedBy(ops) && Mistaken(prims, password, salt, earlier)))
  {
    RunKeepsInvariant(prims, {}, Cache(capacity, map[], [], 0, 0), ops);
    var c := After(prims, Cache(capacity, map[], [], 0, 0), ops);
    var key := KeyOf(prims, password, salt, outputLen);
    earlier := (password, salt);
    if key in c.entries {
      assert HasOrigin(prims, {} + AskedBy(ops), key, c.entries[key].keyBytes);
      var password', salt' :| (password', salt') in AskedBy(ops)
                              && Origin(prims, key, c.entries[key].keyBytes, password', salt');
      earlier := (password', salt');
    }
  }

  /**
   A key comes back exactly for lengths 1 to 32 and inputs the derivation accepts.  Every other
   request that passes the length check panics; the documented error for a failed derivation is
   never returned.
   */
  lemma AnsweredLengths(prims: Primitives, password: bytes, salt: bytes, outputLen: nat)
    requires prims.Valid()
    ensures var answer, accepted := Uncached(prims, password, salt, outputLen), prims.derive(password, salt).Some?;
            && (answer.Key? <==> 1 <= outputLen <= 32 && accepted)
            && (answer.Panic? <==> 1 <= outputLen <= 64 && (outputLen > 32 || !accepted))
            && (answer.InvalidOutputLength? <==> outputLen == 0 || outputLen > 64)
            && (answer.Key? ==> answer.keyBytes == prims.derive(password, salt).value[..outputLen])
  {
    assert prims.derive(password, salt).Some? ==> |prims.derive(password, salt).value| == 32;
  }

  // ----- How long an entry lives -----

  /** How many keys entered the queue after `key`. */
  function Behind(order: seq<CacheKey>, key: CacheKey): (n: nat)
    ensures n <= |order|
  {
    if order == [] || order[|order| - 1] == key then 0 else 1 + Behind(order[..|order| - 1], key)
  }

  lemma BehindAppended(order: seq<CacheKey>, key: CacheKey, other: CacheKey)
    requires other != key
    ensures Behind(order + [other], key) == 1 + Behind(order, key)
  {
    assert (order + [other])[..|order|] == order;
  }

  lemma InTail(init: seq<CacheKey>, last: CacheKey, key: CacheKey)
    requires init != [] && key in init[1..]
    ensures (init + [last])[1..] == init[1..] + [last] && key in init[1..] + [last]
  {
  }

  lemma {:induction false} BehindWithoutFront(order: seq<CacheKey>, key: CacheKey)
    requires NoDuplicates(order) && key in order
    ensures Behind(order, key) < |order|
    ensures Behind(order, key) == |order| - 1 <==> order[0] == key
    ensures order[0] != key ==> key in order[1..] && Behind(order[1..], key) == Behind(order, key)
  {
    var n := |order| - 1;
    if order[n] != key {
      var init := order[..n];
      assert order == init + [order[n]] && key in init;
      BehindWithoutFront(init, key);
      BehindAppended(init, key, order[n]);
      if order[0] != key {
        InTail(init, order[n], key);
        BehindAppended(init[1..], key, order[n]);
      }
    } else if n > 0 {
      assert order[0] != order[n];
      assert order[1..][n - 1] == key;
    }
  }

  lemma {:induction false} BehindRetained(order: seq<CacheKey>, key: CacheKey, dropped: CacheKey)
    requires dropped != key
    ensures Behind(Retain(order, dropped), key) <= Behind(order, key)
  {
    if order != [] {
      var init, last := order[..|order| - 1], order[|order| - 1];
      BehindRetained(init, key, dropped);
      var rest := Retain(init, dropped);
      assert (rest + [last])[..|rest|] == rest;
    }
  }

  /** Whether an operation derives a key and puts it in the cache. */
  predicate Inserts(prims: Primitives, c: Cache, op: Op) {
    && op.Ask?
    && KeyOf(prims, op.password, op.salt, op.outputLen) !in c.entries
    && Uncached(prims, op.password, op.salt, op.outputLen).Key?
  }

  function Insertions(prims: Primitives, c: Cache, ops: seq<Op>): nat
    decreases |ops|
  {
    if ops == [] then 0
    else (if Inserts(prims, c, ops[0]) then 1 else 0) + Insertions(prims, Apply(prims, c, ops[0]), ops[1..])
  }

  predicate Removes(prims: Primitives, op: Op, key: CacheKey) {
    op.Clear? || (op.Drop? && KeyOf(prims, op.password, op.salt, op.outputLen) == key)
  }

  /** An insertion evicts `key` exactly when the queue behind it fills the cache. */
  lemma InsertAges(c: Cache, key: CacheKey, other: CacheKey, keyBytes: bytes)
    requires InStep(c) && key in c.entries && other !in c.entries
    ensures var c' := Insert(c, other, keyBytes);
            && (key in c'.entries <==> Behind(c.order, key) + 1 < c.capacity)
            && (key in c'.entries ==> Behind(c'.order, key) == Behind(c.order, key) + 1)
  {
    SameSize(c);
    BehindWithoutFront(c.order, key);
    var room := Evict(c);
    BehindAppended(room.order, key, other);
  }

  lemma AskAges(prims: Primitives, c: Cache, op: Op, key: CacheKey)
    requires InStep(c) && key in c.entries && op.Ask?
    ensures var c', step := Apply(prims, c, op), if Inserts(prims, c, op) then 1 else 0;
            && (key in c'.entries <==> Behind(c.order, key) + step < c.capacity)
            && (key in c'.entries ==> Behind(c'.order, key) == Behind(c.order, key) + step)
  {
    var asked := KeyOf(prims, op.password, op.salt, op.outputLen);
    SameSize(c);
    BehindWithoutFront(c.order, key);
    if Inserts(prims, c, op) {
      InsertAges(c.(totalMisses := SaturatingInc(c.totalMisses)), key, asked,
                 Uncached(prims, op.password, op.salt, op.outputLen).keyBytes);
    } else {
      assert Apply(prims, c, op).order == c.order;
    }
  }

  lemma DropAges(c: Cache, key: CacheKey, dropped: CacheKey)
    requires InStep(c) && key in c.entries && dropped != key
    ensures var c' := Invalidated(c, dropped);
            key in c'.entries && Behind(c'.order, key) <= Behind(c.order, key)
  {
    BehindRetained(c.order, key, dropped);
  }

  /** One operation that does not remove `key`. */
  lemma OperationAges(prims: Primitives, c: Cache, op: Op, key: CacheKey)
    requires InStep(c) && key in c.entries && !Removes(prims, op, key)
    ensures var c', step := Apply(prims, c, op), if Inserts(prims, c, op) then 1 else 0;
            Behind(c.order, key) + step < c.capacity ==>
              key in c'.entries && Behind(c'.order, key) <= Behind(c.order, key) + step
  {
    if op.Ask? {
      AskAges(prims, c, op, key);
    } else {
      DropAges(c, key, KeyOf(prims, op.password, op.salt, op.outputLen));
    }
  }

  /**
   A fresh entry survives any fewer-than-capacity later insertions, whatever else happens, unless
   it is itself invalidated or the cache is cleared.
   */
  lemma {:induction false} FreshEntrySurvives(prims: Primitives, c: Cache, ops: seq<Op>, key: CacheKey)
    requires InStep(c) && key in c.entries
    requires forall i :: 0 <= i < |ops| ==> !Removes(prims, ops[i], key)
    requires Behind(c.order, key) + Insertions(prims, c, ops) < c.capacity
    ensures key in After(prims, c, ops).entries
    decreases |ops|
  {
    if ops != [] {
      OperationAges(prims, c, ops[0], key);
      ApplyKeepsInStep(prims, c, ops[0]);
      FreshEntrySurvives(prims, Apply(prims, c, ops[0]), ops[1..], key);
    }
  }

  /**
   Over requests for other keys only, an entry's life is exactly the capacity: it is still there
   if and only if fewer insertions than that have come after it.
   */
  lemma {:induction false} EntryLivesExactly(prims: Primitives, c: Cache, ops: seq<Op>, key: CacheKey)
    requires InStep(c) && key in c.entries
    requires forall i :: 0 <= i < |ops| ==>
      ops[i].Ask? && KeyOf(prims, ops[i].password, ops[i].salt, ops[i].outputLen) != key
    ensures key in After(prims, c, ops).entries <==> Behind(c.order, key) + Insertions(prims, c, ops) < c.capacity
    decreases |ops|
  {
    SameSize(c);
    BehindWithoutFront(c.order, key);
    if ops != [] {
      var c' := Apply(prims, c, ops[0]);
      AskAges(prims, c, ops[0], key);
      ApplyKeepsInStep(prims, c, ops[0]);
      if key in c'.entries {
        EntryLivesExactly(prims, c', ops[1..], key);
      } else {
        StaysOut(prims, c', ops[1..], key);
      }
    }
  }

  lemma {:induction false} StaysOut(prims: Primitives, c: Cache, ops: seq<Op>, key: CacheKey)
    requires key !in c.entries
    requires forall i :: 0 <= i < |ops| ==>
      ops[i].Ask? && KeyOf(prims, ops[i].password, ops[i].salt, ops[i].outputLen) != key
    ensures key !in After(prims, c, ops).entries
    decreases |ops|
  {
    if ops != [] {
      StaysOut(prims, Apply(prims, c, ops[0]), ops[1..], key);
    }
  }

  /** The order is of insertion, not of use: the oldest entry of a full cache goes next even if just hit. */
  lemma HitDoesNotRefresh(prims: Primitives, c: Cache, hit: Op, miss: Op)
    requires InStep(c) && |c.entries| == c.capacity && hit.Ask? && 1 <= hit.outputLen <= 64
    requires KeyOf(prims, hit.password, hit.salt, hit.outputLen) == c.order[0] && c.order[0] in c.entries
    requires Inserts(prims, c, miss)
    ensures c.order[0] !in After(prims, c, [hit, miss]).entries
  {
    var c' := Apply(prims, c, hit);
    assert c'.entries.Keys == c.entries.Keys && c'.order == c.order;
    ApplyKeepsInStep(prims, c, hit);
    SameSize(c);
    BehindWithoutFront(c.order, c.order[0]);
    AskAges(prims, c', miss, c.order[0]);
    assert [hit, miss][1..] == [miss] && [miss][1..] == [];
    assert After(prims, c, [hit, miss]) == After(prims, c', [miss]) == Apply(prims, c', miss);
  }
}
