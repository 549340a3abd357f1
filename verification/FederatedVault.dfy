/**
 Replicated vault nodes, `abir_guard/federated_vault.py`: a last-writer-wins map under a hybrid
 logical clock.

 `FederatedVaultNode` is the class; `Node` is its value, on which the specification functions and
 the network below are stated.  `mac` stands for the HMAC under the cluster key of the payload's
 sorted JSON text, for an arbitrary function.  The wall clock is an argument of every write.
 */
module FederatedVault {
  import opened StringOrder

  datatype Option<T> = None | Some(value: T)

  datatype Error = MissingFields | BadMac | BadTimestamp | UnknownKey

  datatype Result<T> = Ok(value: T) | Err(error: Error)

  datatype Record = Record(keyId: string, valueB64: string, logicalTs: int, nodeId: string, tombstone: bool)

  datatype Node = Node(id: string, clock: int, state: map<string, Record>)

  type Payload = map<string, string>
  type Mac = Payload -> string

  predicate Wins(a: Record, b: Record) {
    if a.logicalTs != b.logicalTs then a.logicalTs > b.logicalTs else Less(b.nodeId, a.nodeId)
  }

  predicate SameStamp(a: Record, b: Record) {
    a.logicalTs == b.logicalTs && a.nodeId == b.nodeId
  }

  /** `Wins` is a strict total order on stamps. */
  lemma WinsTotal(a: Record, b: Record)
    ensures Wins(a, b) <==> !SameStamp(a, b) && !Wins(b, a)
  {
    LessTrichotomy(a.nodeId, b.nodeId);
  }

  lemma WinsTransitive(a: Record, b: Record, c: Record)
    requires Wins(a, b) && Wins(b, c)
    ensures Wins(a, c)
  {
    if a.logicalTs == b.logicalTs == c.logicalTs {
      LessTransitive(c.nodeId, b.nodeId, a.nodeId);
    }
  }

  // ----- The wire format -----

  const DIGITS := "0123456789"

  function Decimal(n: nat): (s: string)
    ensures s != []
  {
    if n < 10 then [DIGITS[n]] else Decimal(n / 10) + [DIGITS[n % 10]]
  }

  function ParseDecimal(s: string): Option<nat> {
    if s == [] then None
    else
      var digit := s[|s| - 1];
      if !('0' <= digit <= '9') then None
      else if |s| == 1 then Some((digit - '0') as nat)
      else
        match ParseDecimal(s[..|s| - 1])
        case None => None
        case Some(n) => Some(10 * n + (digit - '0') as nat)
  }

  lemma {:induction false} DecimalRoundTrip(n: nat)
    ensures ParseDecimal(Decimal(n)) == Some(n)
  {
    var s := Decimal(n);
    assert forall d :: 0 <= d < 10 ==> '0' <= DIGITS[d] <= '9' && (DIGITS[d] - '0') as nat == d;
    if n >= 10 {
      DecimalRoundTrip(n / 10);
      assert s[..|s| - 1] == Decimal(n / 10);
    }
  }

  /** `str` and `int` on integers. */
  function IntText(i: int): string {
    if i < 0 then "-" + Decimal(-i) else Decimal(i)
  }

  function ParseInt(s: string): Option<int> {
    var negative := s != [] && s[0] == '-';
    var magnitude := ParseDecimal(if negative then s[1..] else s);
    if magnitude.None? then None
    else
      var i: int := magnitude.value;
      Some(if negative then -i else i)
  }

  lemma {:induction false} DecimalIsUnsigned(n: nat)
    ensures Decimal(n)[0] != '-'
  {
    if n >= 10 {
      DecimalIsUnsigned(n / 10);
    }
  }

  lemma SignedParse(s: string, n: nat)
    requires s != [] && s[0] != '-' && ParseDecimal(s) == Some(n)
    ensures ParseInt(s).Some? && ParseInt(s).value == n
    ensures ParseInt("-" + s).Some? && ParseInt("-" + s).value == -(n as int)
  {
    assert ("-" + s)[1..] == s;
  }

  lemma IntTextRoundTrip(i: int)
    ensures ParseInt(IntText(i)) == Some(i)
  {
    var n: nat := if i < 0 then -i else i;
    DecimalRoundTrip(n);
    DecimalIsUnsigned(n);
    SignedParse(Decimal(n), n);
  }

  const SIGNED_FIELDS := {"key_id", "value_b64", "logical_ts", "node_id", "tombstone"}

  function Fields(r: Record): Payload {
    map["key_id" := r.keyId, "value_b64" := r.valueB64, "logical_ts" := IntText(r.logicalTs),
        "node_id" := r.nodeId, "tombstone" := if r.tombstone then "1" else "0"]
  }

  function Export(r: Record, mac: Mac): Payload {
    Fields(r)["mac" := mac(Fields(r))]
  }

  /** The part of a payload the MAC covers; any other entry is ignored. */
  function SignedPart(payload: Payload): Payload
    requires SIGNED_FIELDS <= payload.Keys
  {
    map k | k in SIGNED_FIELDS :: payload[k]
  }

  predicate Complete(payload: Payload) {
    SIGNED_FIELDS + {"mac"} <= payload.Keys
  }

  predicate Authentic(payload: Payload, mac: Mac) {
    Complete(payload) && mac(SignedPart(payload)) == payload["mac"]
  }

  function Decode(signed: Payload): Option<Record>
    requires SIGNED_FIELDS <= signed.Keys
  {
    match ParseInt(signed["logical_ts"])
    case None => None
    case Some(ts) =>
      Some(Record(signed["key_id"], signed["value_b64"], ts, signed["node_id"], signed["tombstone"] == "1"))
  }

  lemma ExportRoundTrip(r: Record, mac: Mac)
    ensures Authentic(Export(r, mac), mac) && SignedPart(Export(r, mac)) == Fields(r)
    ensures Decode(Fields(r)) == Some(r)
  {
    IntTextRoundTrip(r.logicalTs);
    assert SignedPart(Export(r, mac)) == Fields(r);
    assert "1" != "0";
  }

  // ----- What each operation does to a node -----

  function Tick(n: Node, wall: int): int {
    if n.clock + 1 >= wall then n.clock + 1 else wall
  }

  function Write(n: Node, r: Record): Node {
    n.(clock := r.logicalTs, state := n.state[r.keyId := r])
  }

  function PutRecord(n: Node, keyId: string, valueB64: string, wall: int): Record {
    Record(keyId, valueB64, Tick(n, wall), n.id, false)
  }

  function DeleteRecord(n: Node, keyId: string, wall: int): Record {
    Record(keyId, "", Tick(n, wall), n.id, true)
  }

  predicate Accepts(n: Node, incoming: Record) {
    incoming.keyId !in n.state || Wins(incoming, n.state[incoming.keyId])
  }

  function Merge(n: Node, incoming: Record): Node {
    if Accepts(n, incoming) then
      n.(clock := if n.clock >= incoming.logicalTs then n.clock else incoming.logicalTs,
         state := n.state[incoming.keyId := incoming])
    else n
  }

  /** What a payload is read as, or why it is refused. */
  function Receive(payload: Payload, mac: Mac): Result<Record> {
    if !Complete(payload) then Err(MissingFields)
    else if !Authentic(payload, mac) then Err(BadMac)
    else
      match Decode(SignedPart(payload))
      case None => Err(BadTimestamp)
      case Some(r) => Ok(r)
  }

  function Lookup(n: Node, keyId: string): Option<Record> {
    if keyId !in n.state || n.state[keyId].tombstone then None else Some(n.state[keyId])
  }

  class FederatedVaultNode {
    const nodeId: string
    const mac: Mac
    var clock: int
    var state: map<string, Record>

    ghost function Value(): Node
      reads this
    {
      Node(nodeId, clock, state)
    }

    /** Construction is refused for an empty identifier or an empty cluster key. */
    static method New(nodeId: string, clusterKey: string, hmac: string -> Mac) returns (r: FederatedVaultNode?)
      ensures r == null <==> nodeId == [] || clusterKey == []
      ensures r != null ==>
        fresh(r) && r.nodeId == nodeId && r.mac == hmac(clusterKey) && r.Value() == Node(nodeId, 0, map[])
    {
      if nodeId == [] || clusterKey == [] {
        return null;
      }
      r := new FederatedVaultNode(nodeId, hmac(clusterKey));
    }

    constructor (nodeId: string, mac: Mac)
      ensures this.nodeId == nodeId && this.mac == mac && Value() == Node(nodeId, 0, map[])
    {
      this.nodeId, this.mac := nodeId, mac;
      clock, state := 0, map[];
    }

    method TickClock(wall: int) returns (ts: int)
      modifies this`clock
      ensures ts == clock == Tick(old(Value()), wall)
      ensures clock > old(clock) && clock >= wall && (clock == wall || clock == old(clock) + 1)
    {
      clock := if clock + 1 >= wall then clock + 1 else wall;
      ts := clock;
    }

    method Put(keyId: string, valueB64: string, wall: int) returns (record: Record)
      modifies this
      ensures record == PutRecord(old(Value()), keyId, valueB64, wall)
      ensures Value() == Write(old(Value()), record)
      ensures clock > old(clock) && clock >= wall && record == Record(keyId, valueB64, clock, nodeId, false)
      ensures state == old(state)[keyId := record]
    {
      var ts := TickClock(wall);
      record := Record(keyId, valueB64, ts, nodeId, false);
      state := state[keyId := record];
    }

    method Delete(keyId: string, wall: int) returns (record: Record)
      modifies this
      ensures record == DeleteRecord(old(Value()), keyId, wall)
      ensures Value() == Write(old(Value()), record)
      ensures clock > old(clock) && clock >= wall && record == Record(keyId, "", clock, nodeId, true)
      ensures state == old(state)[keyId := record]
    {
      var ts := TickClock(wall);
      record := Record(keyId, "", ts, nodeId, true);
      state := state[keyId := record];
    }

    method Get(keyId: string) returns (r: Option<Record>)
      ensures r == Lookup(Value(), keyId)
      ensures r.Some? <==> keyId in state && !state[keyId].tombstone
      ensures r.Some? ==> r.value == state[keyId]
    {
      if keyId !in state || state[keyId].tombstone {
        return None;
      }
      return Some(state[keyId]);
    }

    method ExportDelta(keyId: string) returns (r: Result<Payload>)
      ensures r == if keyId in state then Ok(Export(state[keyId], mac)) else Err(UnknownKey)
      ensures keyId in state ==>
        var rec := state[keyId];
        var fields := map["key_id" := rec.keyId, "value_b64" := rec.valueB64, "logical_ts" := IntText(rec.logicalTs),
                          "node_id" := rec.nodeId, "tombstone" := if rec.tombstone then "1" else "0"];
        r == Ok(fields["mac" := mac(fields)])
    {
      if keyId !in state {
        return Err(UnknownKey);
      }
      var payload := Fields(state[keyId]);
      r := Ok(payload["mac" := mac(payload)]);
    }

    method ApplyDelta(payload: Payload) returns (r: Result<bool>)
      modifies this
      ensures match Receive(payload, mac)
              case Err(e) => r == Err(e) && Value() == old(Value())
              case Ok(incoming) =>
                r == Ok(Accepts(old(Value()), incoming)) && Value() == Merge(old(Value()), incoming)
      // A payload with a field missing is refused.
      ensures !({"key_id", "value_b64", "logical_ts", "node_id", "tombstone", "mac"} <= payload.Keys) ==>
        r == Err(MissingFields) && Value() == old(Value())
      // So is one whose five signed fields have another MAC than the one it carries.
      ensures {"key_id", "value_b64", "logical_ts", "node_id", "tombstone", "mac"} <= payload.Keys ==>
        var fields := map["key_id" := payload["key_id"], "value_b64" := payload["value_b64"],
                          "logical_ts" := payload["logical_ts"], "node_id" := payload["node_id"],
                          "tombstone" := payload["tombstone"]];
        && (mac(fields) != payload["mac"] ==> r == Err(BadMac) && Value() == old(Value()))
        && (mac(fields) == payload["mac"] ==> r.Ok? || r == Err(BadTimestamp))
      // An accepted one is stored under its key if it is newer, by timestamp and then by node.
      ensures r.Ok? ==>
        {"key_id", "value_b64", "logical_ts", "node_id", "tombstone"} <= payload.Keys
        && ParseInt(payload["logical_ts"]).Some?
      ensures r.Ok? ==>
        var ts := ParseInt(payload["logical_ts"]).value;
        var keyId, author := payload["key_id"], payload["node_id"];
        && (r.value <==> keyId !in old(state) || ts > old(state[keyId]).logicalTs
                         || (ts == old(state[keyId]).logicalTs && Less(old(state[keyId]).nodeId, author)))
        && (r.value ==> clock == (if old(clock) >= ts then old(clock) else ts)
                        && state == old(state)[keyId := Record(keyId, payload["value_b64"], ts, author,
                                                               payload["tombstone"] == "1")])
        && (!r.value ==> Value() == old(Value()))
    {
      if Complete(payload) {
        assert SignedPart(payload) == map["key_id" := payload["key_id"], "value_b64" := payload["value_b64"],
                                          "logical_ts" := payload["logical_ts"], "node_id" := payload["node_id"],
                                          "tombstone" := payload["tombstone"]];
      }
      if !Complete(payload) {
        return Err(MissingFields);
      }
      var signed := SignedPart(payload);
      if mac(signed) != payload["mac"] {
        return Err(BadMac);
      }
      var decoded := Decode(signed);
      if decoded.None? {
        return Err(BadTimestamp);
      }
      var incoming := decoded.value;
      if incoming.keyId !in state || Wins(incoming, state[incoming.keyId]) {
        state := state[incoming.keyId := incoming];
        clock := if clock >= incoming.logicalTs then clock else incoming.logicalTs;
        return Ok(true);
      }
      return Ok(false);
    }
  }

  // ----- What a node answers -----

  /** After a put the key answers with the new value, whatever it held; other keys answer as before. */
  lemma PutThenGet(n: Node, keyId: string, valueB64: string, wall: int, other: string)
    ensures var n' := Write(n, PutRecord(n, keyId, valueB64, wall));
            && Lookup(n', keyId).Some? && Lookup(n', keyId).value.valueB64 == valueB64
            && (other != keyId ==> Lookup(n', other) == Lookup(n, other))
  {
  }

  /** After a delete the key answers with nothing, and its tombstone is exported as one. */
  lemma DeleteThenGet(n: Node, keyId: string, wall: int, other: string, mac: Mac)
    ensures var n' := Write(n, DeleteRecord(n, keyId, wall));
            && Lookup(n', keyId) == None
            && keyId in n'.state && Export(n'.state[keyId], mac)["tombstone"] == "1"
            && (other != keyId ==> Lookup(n', other) == Lookup(n, other))
  {
  }

  // ----- Last writer wins over a set of records -----

  /** No two different records carry the same stamp. */
  ghost predicate Consistent(records: set<Record>) {
    forall r, s :: r in records && s in records && SameStamp(r, s) ==> r == s
  }

  /** `state` holds, for each key, the record of `seen` for that key that beats all others. */
  ghost predicate LastWriters(seen: set<Record>, state: map<string, Record>) {
    && (forall k :: k in state ==> state[k] in seen && state[k].keyId == k)
    && (forall r :: r in seen ==> r.keyId in state && (r == state[r.keyId] || Wins(state[r.keyId], r)))
  }

  lemma MergeKeepsLastWriters(n: Node, seen: set<Record>, r: Record)
    requires LastWriters(seen, n.state) && Consistent(seen + {r})
    ensures LastWriters(seen + {r}, Merge(n, r).state)
  {
    var state' := Merge(n, r).state;
    if r.keyId in n.state {
      WinsTotal(r, n.state[r.keyId]);
    }
    forall s | s in seen + {r}
      ensures s.keyId in state' && (s == state'[s.keyId] || Wins(state'[s.keyId], s))
    {
      if s != r && s.keyId == r.keyId && Accepts(n, r) && s != n.state[s.keyId] {
        WinsTransitive(r, n.state[s.keyId], s);
      }
    }
  }

  // ----- The network -----

  /**
   Nodes by identifier, with what history records: the records each node has written or received,
   all records ever written, and the payloads ever signed.
   */
  datatype Net = Net(nodes: map<string, Node>, seen: map<string, set<Record>>, written: set<Record>,
                     signed: set<Payload>)

  datatype Step =
    | Put(node: string, keyId: string, valueB64: string, wall: int)
    | Delete(node: string, keyId: string, wall: int)
    | ExportKey(node: string, keyId: string)
    | Deliver(node: string, payload: Payload)

  function Init(ids: set<string>): Net {
    Net(map id | id in ids :: Node(id, 0, map[]), map id | id in ids :: {}, {}, {})
  }

  function Written(net: Net, id: string, r: Record): Net
    requires id in net.nodes && id in net.seen
  {
    Net(net.nodes[id := Write(net.nodes[id], r)], net.seen[id := net.seen[id] + {r}], net.written + {r}, net.signed)
  }

  /** Any node may act at any time, and any payload whatever may be delivered, any number of times. */
  ghost function Next(net: Net, mac: Mac, step: Step): Net {
    if step.node !in net.nodes || step.node !in net.seen then net
    else
      var n := net.nodes[step.node];
      match step
      case Put(id, keyId, valueB64, wall) => Written(net, id, PutRecord(n, keyId, valueB64, wall))
      case Delete(id, keyId, wall) => Written(net, id, DeleteRecord(n, keyId, wall))
      case ExportKey(id, keyId) =>
        if keyId in n.state then net.(signed := net.signed + {Fields(n.state[keyId])}) else net
      case Deliver(id, payload) =>
        match Receive(payload, mac)
        case Err(_) => net
        case Ok(r) =>
          net.(nodes := net.nodes[id := Merge(n, r)], seen := net.seen[id := net.seen[id] + {r}])
  }

  /** No MAC is forged: whatever verifies was signed by some node. */
  ghost predicate Unforged(net: Net, mac: Mac, step: Step) {
    step.Deliver? && Authentic(step.payload, mac) ==> SignedPart(step.payload) in net.signed
  }

  ghost predicate NodeInv(n: Node, id: string, seen: set<Record>) {
    && n.id == id
    && LastWriters(seen, n.state)
    && forall r :: r in seen ==> r.logicalTs <= n.clock
  }

  ghost predicate NodesInv(nodes: map<string, Node>, seen: map<string, set<Record>>, written: set<Record>) {
    && seen.Keys == nodes.Keys
    && forall id :: id in nodes ==> NodeInv(nodes[id], id, seen[id]) && seen[id] <= written
  }

  /** Every record was written by a node whose clock has not fallen behind it, with a stamp of its own. */
  ghost predicate WrittenInv(nodes: map<string, Node>, written: set<Record>) {
    && (forall r :: r in written ==> r.nodeId in nodes && r.logicalTs <= nodes[r.nodeId].clock)
    && Consistent(written)
  }

  ghost predicate SignedInv(signed: set<Payload>, written: set<Record>) {
    forall p :: p in signed ==> exists r :: r in written && p == Fields(r)
  }

  ghost predicate Inv(net: Net) {
    && NodesInv(net.nodes, net.seen, net.written)
    && WrittenInv(net.nodes, net.written)
    && SignedInv(net.signed, net.written)
  }

  /** A local write is strictly newer than every record the node has written or received. */
  lemma WriteIsNewest(net: Net, id: string, r: Record, wall: int)
    requires Inv(net) && id in net.nodes && r.nodeId == id && r.logicalTs == Tick(net.nodes[id], wall)
    ensures forall s :: s in net.seen[id] ==> Wins(r, s)
    ensures r !in net.written && Consistent(net.written + {r})
  {
    assert NodeInv(net.nodes[id], id, net.seen[id]);
  }

  /** Changing one node leaves the others as they were. */
  lemma UpdateNode(nodes: map<string, Node>, seen: map<string, set<Record>>, written: set<Record>,
                   id: string, n': Node, seen': set<Record>, written': set<Record>)
    requires NodesInv(nodes, seen, written) && id in nodes
    requires NodeInv(n', id, seen') && seen' <= written' && written <= written'
    ensures NodesInv(nodes[id := n'], seen[id := seen'], written')
  {
  }

  lemma WrittenKeepsInv(net: Net, id: string, r: Record, wall: int)
    requires Inv(net) && id in net.nodes && r.nodeId == id && r.logicalTs == Tick(net.nodes[id], wall)
    ensures Inv(Written(net, id, r))
  {
    WriteIsNewest(net, id, r, wall);
    var n := net.nodes[id];
    assert NodeInv(n, id, net.seen[id]) && net.seen[id] <= net.written;
    assert NodeInv(Write(n, r), id, net.seen[id] + {r});
    UpdateNode(net.nodes, net.seen, net.written, id, Write(n, r), net.seen[id] + {r}, net.written + {r});
  }

  lemma MergeKeepsNodeInv(n: Node, id: string, seen: set<Record>, r: Record)
    requires NodeInv(n, id, seen) && Consistent(seen + {r})
    ensures NodeInv(Merge(n, r), id, seen + {r})
  {
    MergeKeepsLastWriters(n, seen, r);
    if !Accepts(n, r) {
      assert n.state[r.keyId] in seen;
    }
  }

  lemma DeliveredKeepsInv(net: Net, id: string, r: Record)
    requires Inv(net) && id in net.nodes && r in net.written
    ensures Inv(net.(nodes := net.nodes[id := Merge(net.nodes[id], r)],
                     seen := net.seen[id := net.seen[id] + {r}]))
  {
    var n := net.nodes[id];
    assert NodeInv(n, id, net.seen[id]) && net.seen[id] <= net.written;
    MergeKeepsNodeInv(n, id, net.seen[id], r);
    UpdateNode(net.nodes, net.seen, net.written, id, Merge(n, r), net.seen[id] + {r}, net.written);
  }

  lemma SignedKeepsInv(net: Net, r: Record)
    requires Inv(net) && r in net.written
    ensures Inv(net.(signed := net.signed + {Fields(r)}))
  {
  }

  /** Without forgeries a payload that verifies decodes to a record some node wrote. */
  lemma ReceivedWasWritten(net: Net, mac: Mac, payload: Payload) returns (r: Record)
    requires Inv(net) && Authentic(payload, mac) && SignedPart(payload) in net.signed
    ensures r in net.written && Receive(payload, mac) == Ok(r)
  {
    r :| r in net.written && SignedPart(payload) == Fields(r);
    ExportRoundTrip(r, mac);
  }

  /**
   Changing any signed field of an exported record changes nothing anywhere, unless the MAC of the
   changed fields is the MAC of the original ones.
   */
  lemma TamperedIsIgnored(net: Net, mac: Mac, id: string, r: Record, field: string, value: string)
    requires field in {"key_id", "value_b64", "logical_ts", "node_id", "tombstone"}
    ensures var fields := map["key_id" := r.keyId, "value_b64" := r.valueB64, "logical_ts" := IntText(r.logicalTs),
                              "node_id" := r.nodeId, "tombstone" := if r.tombstone then "1" else "0"];
            && Export(r, mac) == fields["mac" := mac(fields)]
            && (mac(fields[field := value]) != mac(fields) ==>
                  Next(net, mac, Deliver(id, Export(r, mac)[field := value])) == net)
  {
    var fields := Fields(r);
    var tampered := Export(r, mac)[field := value];
    assert SignedPart(tampered) == fields[field := value];
  }

  /** Every step of the network keeps the invariant. */
  lemma StepKeepsInv(net: Net, mac: Mac, step: Step)
    requires Inv(net) && Unforged(net, mac, step)
    ensures Inv(Next(net, mac, step))
  {
    if step.node in net.nodes {
      var n := net.nodes[step.node];
      assert NodeInv(n, step.node, net.seen[step.node]) && net.seen[step.node] <= net.written;
      match step
      case Put(id, keyId, valueB64, wall) =>
        WrittenKeepsInv(net, id, PutRecord(n, keyId, valueB64, wall), wall);
      case Delete(id, keyId, wall) =>
        WrittenKeepsInv(net, id, DeleteRecord(n, keyId, wall), wall);
      case ExportKey(id, keyId) =>
        if keyId in n.state {
          SignedKeepsInv(net, n.state[keyId]);
        }
      case Deliver(id, payload) =>
        if Authentic(payload, mac) {
          var r := ReceivedWasWritten(net, mac, payload);
          DeliveredKeepsInv(net, id, r);
        }
    }
  }

  /** A run without forgeries, from nodes that start empty; `trail` lists every state in order. */
  ghost predicate IsRun(ids: set<string>, mac: Mac, steps: seq<Step>, trail: seq<Net>) {
    && |trail| == |steps| + 1 && trail[0] == Init(ids)
    && forall i :: 0 <= i < |steps| ==>
         Unforged(trail[i], mac, steps[i]) && trail[i + 1] == Next(trail[i], mac, steps[i])
  }

  lemma {:induction false} RunKeepsInv(ids: set<string>, mac: Mac, steps: seq<Step>, trail: seq<Net>, i: nat)
    requires IsRun(ids, mac, steps, trail) && i < |trail|
    ensures Inv(trail[i])
  {
    if i > 0 {
      RunKeepsInv(ids, mac, steps, trail, i - 1);
      StepKeepsInv(trail[i - 1], mac, steps[i - 1]);
      assert trail[i] == Next(trail[i - 1], mac, steps[i - 1]);
    }
  }

  /**
   On every run, at every moment, each node holds for each key exactly the newest record it has
   written or received for it; no other map does; and its next write, whatever the wall clock
   says, beats everything it has seen.
   */
  lemma LastWriterWins(ids: set<string>, mac: Mac, steps: seq<Step>, trail: seq<Net>, i: nat, id: string, wall: int)
    requires IsRun(ids, mac, steps, trail) && i < |trail| && id in trail[i].nodes
    ensures id in trail[i].seen && LastWriters(trail[i].seen[id], trail[i].nodes[id].state)
    ensures forall state :: LastWriters(trail[i].seen[id], state) ==> state == trail[i].nodes[id].state
    ensures forall keyId, valueB64, s :: s in trail[i].seen[id] ==>
      && Wins(PutRecord(trail[i].nodes[id], keyId, valueB64, wall), s)
      && Wins(DeleteRecord(trail[i].nodes[id], keyId, wall), s)
  {
    var net := trail[i];
    RunKeepsInv(ids, mac, steps, trail, i);
    assert NodeInv(net.nodes[id], id, net.seen[id]) && net.seen[id] <= net.written;
    forall state | LastWriters(net.seen[id], state)
      ensures state == net.nodes[id].state
    {
      SameSeenSameState(net.seen[id], net.seen[id], state, net.nodes[id].state);
    }
    forall keyId, valueB64, s | s in net.seen[id]
      ensures Wins(PutRecord(net.nodes[id], keyId, valueB64, wall), s)
           && Wins(DeleteRecord(net.nodes[id], keyId, wall), s)
    {
      WriteIsNewest(net, id, PutRecord(net.nodes[id], keyId, valueB64, wall), wall);
    }
  }

  ghost predicate SameFor(key: string, seen: set<Record>, seen': set<Record>) {
    forall r :: r in seen + seen' && r.keyId == key ==> r in seen && r in seen'
  }

  lemma SameKeySameRecord(key: string, seen: set<Record>, seen': set<Record>,
                          state: map<string, Record>, state': map<string, Record>)
    requires SameFor(key, seen, seen') && LastWriters(seen, state) && LastWriters(seen', state')
    ensures key in state <==> key in state'
    ensures key in state ==> state[key] == state'[key]
  {
    if key in state {
      assert state[key] in seen + seen';
    }
    if key in state' {
      assert state'[key] in seen + seen';
    }
    if key in state && key in state' {
      WinsTotal(state[key], state'[key]);
    }
  }

  lemma SameSeenSameState(seen: set<Record>, seen': set<Record>, state: map<string, Record>, state': map<string, Record>)
    requires seen == seen' && LastWriters(seen, state) && LastWriters(seen', state')
    ensures state == state'
  {
    forall key | key in state || key in state'
      ensures key in state && key in state' && state[key] == state'[key]
    {
      SameKeySameRecord(key, seen, seen', state, state');
    }
  }

  /**
   Strong convergence: two nodes of a run that have seen the same records for a key agree on that
   key, whatever the order, repetition or relaying of the deltas that brought them.
   */
  lemma StrongConvergence(ids: set<string>, mac: Mac, steps: seq<Step>, trail: seq<Net>, i: nat, j: nat,
                          a: string, b: string, key: string)
    requires IsRun(ids, mac, steps, trail) && i < |trail| && j < |trail|
    requires a in trail[i].nodes && b in trail[j].nodes
    requires a in trail[i].seen && b in trail[j].seen && SameFor(key, trail[i].seen[a], trail[j].seen[b])
    ensures Lookup(trail[i].nodes[a], key) == Lookup(trail[j].nodes[b], key)
    ensures trail[i].seen[a] == trail[j].seen[b] ==> trail[i].nodes[a].state == trail[j].nodes[b].state
  {
    RunKeepsInv(ids, mac, steps, trail, i);
    RunKeepsInv(ids, mac, steps, trail, j);
    assert NodeInv(trail[i].nodes[a], a, trail[i].seen[a]);
    assert NodeInv(trail[j].nodes[b], b, trail[j].seen[b]);
    SameKeySameRecord(key, trail[i].seen[a], trail[j].seen[b], trail[i].nodes[a].state, trail[j].nodes[b].state);
    if trail[i].seen[a] == trail[j].seen[b] {
      SameSeenSameState(trail[i].seen[a], trail[j].seen[b], trail[i].nodes[a].state, trail[j].nodes[b].state);
    }
  }

  // ----- One two-way exchange -----

  /** `dst` after receiving `src`'s records for `keys`, in that order. */
  function Sync(dst: Node, src: Node, keys: seq<string>): Node
    requires forall k :: k in keys ==> k in src.state
    decreases |keys|
  {
    if keys == [] then dst
    else
      assert forall k :: k in keys[1..] ==> k in keys;
      Sync(Merge(dst, src.state[keys[0]]), src, keys[1..])
  }

  /** The vault's states are indexed by their records' own keys. */
  ghost predicate Keyed(n: Node) {
    forall k :: k in n.state ==> n.state[k].keyId == k
  }

  /** Two different records under one key with the same stamp: neither ever replaces the other. */
  ghost predicate Clash(a: Node, b: Node) {
    exists k :: k in a.state && k in b.state && a.state[k] != b.state[k] && SameStamp(a.state[k], b.state[k])
  }

  lemma {:induction false} SyncAt(dst: Node, src: Node, keys: seq<string>, k: string)
    requires Keyed(dst) && Keyed(src) && forall x :: x in keys ==> x in src.state
    ensures var dst' := Sync(dst, src, keys);
            && Keyed(dst')
            && (k in dst'.state <==> k in dst.state || k in keys)
            && (k in dst'.state ==>
                  dst'.state[k] == if k in keys && Accepts(dst, src.state[k]) then src.state[k] else dst.state[k])
    decreases |keys|
  {
    if keys != [] {
      assert forall x :: x in keys <==> x == keys[0] || x in keys[1..];
      var dst1 := Merge(dst, src.state[keys[0]]);
      SyncAt(dst1, src, keys[1..], k);
      if k == keys[0] {
        WinsTotal(src.state[k], src.state[k]);
      }
    }
  }

  ghost predicate Covers(keys: seq<string>, n: Node) {
    forall k :: k in keys <==> k in n.state
  }

  /**
   One exchange in each direction, over all keys in any order and with repetitions, makes two
   nodes equal if and only if they do not clash.
   */
  lemma ExchangeConvergesIff(a: Node, b: Node, keysA: seq<string>, keysB: seq<string>)
    requires Keyed(a) && Keyed(b) && Covers(keysA, a) && Covers(keysB, Sync(b, a, keysA))
    ensures Sync(a, Sync(b, a, keysA), keysB).state == Sync(b, a, keysA).state <==> !Clash(a, b)
  {
    var b' := Sync(b, a, keysA);
    SyncAt(b, a, keysA, "");
    var a' := Sync(a, b', keysB);
    forall k
      ensures (k in a'.state <==> k in b'.state)
      ensures k in b'.state ==> (a'.state[k] != b'.state[k] <==>
        k in a.state && k in b.state && a.state[k] != b.state[k] && SameStamp(a.state[k], b.state[k]))
    {
      SyncAt(b, a, keysA, k);
      SyncAt(a, b', keysB, k);
      if k in a.state && k in b.state {
        WinsTotal(a.state[k], b.state[k]);
        WinsTotal(a.state[k], a.state[k]);
      }
    }
    if !Clash(a, b) {
      assert a'.state == b'.state;
    } else {
      var k :| k in a.state && k in b.state && a.state[k] != b.state[k] && SameStamp(a.state[k], b.state[k]);
      SyncAt(b, a, keysA, k);
      assert k in b'.state && k in a'.state;
      assert a'.state[k] != b'.state[k];
    }
  }

  lemma NodesNeverClash(net: Net, a: string, b: string)
    requires Inv(net) && a in net.nodes && b in net.nodes
    ensures Keyed(net.nodes[a]) && Keyed(net.nodes[b]) && !Clash(net.nodes[a], net.nodes[b])
  {
    assert NodeInv(net.nodes[a], a, net.seen[a]) && net.seen[a] <= net.written;
    assert NodeInv(net.nodes[b], b, net.seen[b]) && net.seen[b] <= net.written;
  }

  /** Nodes of a run never clash, so one exchange always makes them equal. */
  lemma ExchangeConverges(ids: set<string>, mac: Mac, steps: seq<Step>, trail: seq<Net>, i: nat, a: string, b: string,
                          keysA: seq<string>, keysB: seq<string>)
    requires IsRun(ids, mac, steps, trail) && i < |trail| && a in trail[i].nodes && b in trail[i].nodes
    requires Covers(keysA, trail[i].nodes[a])
    requires Covers(keysB, Sync(trail[i].nodes[b], trail[i].nodes[a], keysA))
    ensures var b' := Sync(trail[i].nodes[b], trail[i].nodes[a], keysA);
            Sync(trail[i].nodes[a], b', keysB).state == b'.state
  {
    var net := trail[i];
    RunKeepsInv(ids, mac, steps, trail, i);
    NodesNeverClash(net, a, b);
    ExchangeConvergesIff(net.nodes[a], net.nodes[b], keysA, keysB);
  }

  // ----- The exchange as steps of the network -----

  ghost function AfterSteps(net: Net, mac: Mac, steps: seq<Step>): Net
    decreases |steps|
  {
    if steps == [] then net else AfterSteps(Next(net, mac, steps[0]), mac, steps[1..])
  }

  ghost predicate NoForgery(net: Net, mac: Mac, steps: seq<Step>)
    decreases |steps|
  {
    steps == [] || (Unforged(net, mac, steps[0]) && NoForgery(Next(net, mac, steps[0]), mac, steps[1..]))
  }

  /** Node `a` exports each key in turn, and `b` is delivered what it exported. */
  function OneWay(a: string, b: string, src: Node, keys: seq<string>, mac: Mac): seq<Step>
    requires forall k :: k in keys ==> k in src.state
    decreases |keys|
  {
    if keys == [] then []
    else
      assert forall k :: k in keys[1..] ==> k in keys;
      [ExportKey(a, keys[0]), Deliver(b, Export(src.state[keys[0]], mac))] + OneWay(a, b, src, keys[1..], mac)
  }

  lemma ExportReceived(r: Record, mac: Mac)
    ensures Receive(Export(r, mac), mac) == Ok(r) && SignedPart(Export(r, mac)) == Fields(r)
  {
    hide Fields, Decode;
    ExportRoundTrip(r, mac);
  }

  lemma DeltaArrives(net: Net, mac: Mac, a: string, b: string, k: string)
    requires Inv(net) && a in net.nodes && b in net.nodes && k in net.nodes[a].state
    ensures var r := net.nodes[a].state[k];
            var net1 := Next(net, mac, ExportKey(a, k));
            var net2 := Next(net1, mac, Deliver(b, Export(r, mac)));
            && Unforged(net, mac, ExportKey(a, k)) && Unforged(net1, mac, Deliver(b, Export(r, mac)))
            && Inv(net2) && net2.nodes == net.nodes[b := Merge(net.nodes[b], r)]
  {
    hide Fields, Receive, SignedPart, Authentic, Export, Merge;
    var r := net.nodes[a].state[k];
    var net1 := Next(net, mac, ExportKey(a, k));
    ExportReceived(r, mac);
    StepKeepsInv(net, mac, ExportKey(a, k));
    assert a in net.seen && b in net.seen;
    assert net1.nodes == net.nodes && Fields(r) in net1.signed;
    StepKeepsInv(net1, mac, Deliver(b, Export(r, mac)));
  }

  lemma TwoSteps(net: Net, mac: Mac, one: Step, two: Step, rest: seq<Step>)
    ensures var net2 := Next(Next(net, mac, one), mac, two);
            && AfterSteps(net, mac, [one, two] + rest) == AfterSteps(net2, mac, rest)
            && (NoForgery(net, mac, [one, two] + rest) <==>
                Unforged(net, mac, one) && Unforged(Next(net, mac, one), mac, two) && NoForgery(net2, mac, rest))
  {
    hide Next, Unforged;
    var steps := [one, two] + rest;
    assert steps[1..] == [two] + rest && steps[1..][1..] == rest;
  }

  /** These steps are a run without forgeries, and leave `b` as `Sync` says and the others alone. */
  lemma {:induction false} OneWayIsSync(net: Net, mac: Mac, a: string, b: string, src: Node, keys: seq<string>)
    requires Inv(net) && a in net.nodes && b in net.nodes && a != b && net.nodes[a] == src
    requires forall k :: k in keys ==> k in src.state
    ensures var steps := OneWay(a, b, src, keys, mac);
            && NoForgery(net, mac, steps) && Inv(AfterSteps(net, mac, steps))
            && AfterSteps(net, mac, steps).nodes == net.nodes[b := Sync(net.nodes[b], src, keys)]
    decreases |keys|
  {
    hide Next, Unforged, Inv, Merge;
    if keys != [] {
      var k, rest := keys[0], keys[1..];
      assert forall x :: x in rest ==> x in keys;
      var r := src.state[k];
      DeltaArrives(net, mac, a, b, k);
      var net2 := Next(Next(net, mac, ExportKey(a, k)), mac, Deliver(b, Export(r, mac)));
      OneWayIsSync(net2, mac, a, b, src, rest);
      TwoSteps(net, mac, ExportKey(a, k), Deliver(b, Export(r, mac)), OneWay(a, b, src, rest, mac));
    } else {
      assert net.nodes[b := net.nodes[b]] == net.nodes;
    }
  }

  /**
   The same exchange as a run of the network: after one way and then the other, over all keys, the
   two nodes hold the same state and no other node has changed.
   */
  lemma ExchangeRuns(net: Net, mac: Mac, a: string, b: string, keysA: seq<string>, keysB: seq<string>)
    requires Inv(net) && a in net.nodes && b in net.nodes && a != b
    requires Covers(keysA, net.nodes[a]) && Covers(keysB, Sync(net.nodes[b], net.nodes[a], keysA))
    ensures var b' := Sync(net.nodes[b], net.nodes[a], keysA);
            var there, back := OneWay(a, b, net.nodes[a], keysA, mac), OneWay(b, a, b', keysB, mac);
            var net1 := AfterSteps(net, mac, there);
            var net2 := AfterSteps(net1, mac, back);
            && NoForgery(net, mac, there) && NoForgery(net1, mac, back) && Inv(net2)
            && net2.nodes.Keys == net.nodes.Keys && net2.nodes[a].state == net2.nodes[b].state
            && forall id :: id in net.nodes && id != a && id != b ==> net2.nodes[id] == net.nodes[id]
  {
    hide Inv, OneWay, AfterSteps, NoForgery, Sync, Clash, Keyed;
    var b' := Sync(net.nodes[b], net.nodes[a], keysA);
    OneWayIsSync(net, mac, a, b, net.nodes[a], keysA);
    var net1 := AfterSteps(net, mac, OneWay(a, b, net.nodes[a], keysA, mac));
    assert net1.nodes[b] == b' && net1.nodes[a] == net.nodes[a];
    OneWayIsSync(net1, mac, b, a, b', keysB);
    NodesNeverClash(net, a, b);
    ExchangeConvergesIff(net.nodes[a], net.nodes[b], keysA, keysB);
  }

  // ----- Nodes that share an identifier -----

  /** One node's record for a key delivered to the other. */
  datatype Delta = ToFirst(key: string) | ToSecond(key: string)

  function Exchanged(a: Node, b: Node, deltas: seq<Delta>): (r: (Node, Node))
    decreases |deltas|
  {
    if deltas == [] then (a, b)
    else
      match deltas[0]
      case ToFirst(key) =>
        Exchanged(if key in b.state then Merge(a, b.state[key]) else a, b, deltas[1..])
      case ToSecond(key) =>
        Exchanged(a, if key in a.state then Merge(b, a.state[key]) else b, deltas[1..])
  }

  ghost predicate ClashAt(a: Node, b: Node, k: string) {
    k in a.state && k in b.state && a.state[k] != b.state[k] && SameStamp(a.state[k], b.state[k])
  }

  lemma MergeKeepsClash(a: Node, b: Node, k: string, key: string)
    requires Keyed(a) && Keyed(b) && ClashAt(a, b, k) && key in b.state
    ensures var a' := Merge(a, b.state[key]); Keyed(a') && k in a'.state && a'.state[k] == a.state[k]
  {
    WinsTotal(b.state[k], a.state[k]);
  }

  /** A clash is for good: no deliveries between the two nodes ever change either record. */
  lemma {:induction false} ClashIsPermanent(a: Node, b: Node, k: string, deltas: seq<Delta>)
    requires Keyed(a) && Keyed(b) && ClashAt(a, b, k)
    ensures var (a', b') := Exchanged(a, b, deltas);
            k in a'.state && k in b'.state && a'.state[k] == a.state[k] && b'.state[k] == b.state[k]
    decreases |deltas|
  {
    hide Merge, SameStamp;
    if deltas != [] {
      var key, rest := deltas[0].key, deltas[1..];
      if deltas[0].ToFirst? {
        if key in b.state {
          MergeKeepsClash(a, b, k, key);
          ClashIsPermanent(Merge(a, b.state[key]), b, k, rest);
        } else {
          ClashIsPermanent(a, b, k, rest);
        }
      } else if key in a.state {
        ClashSymmetric(a, b, k);
        MergeKeepsClash(b, a, k, key);
        ClashIsPermanent(a, Merge(b, a.state[key]), k, rest);
      } else {
        ClashIsPermanent(a, b, k, rest);
      }
    }
  }

  lemma ClashSymmetric(a: Node, b: Node, k: string)
    requires ClashAt(a, b, k)
    ensures ClashAt(b, a, k)
  {
  }

  /**
   Distinct identifiers matter: two new nodes that share one, and put different values under one key
   at one instant, never agree, whatever is delivered between them.
   */
  lemma SharedIdentifierDiverges(id: string, keyId: string, x: string, y: string, wall: int, deltas: seq<Delta>)
    requires x != y
    ensures var blank := Node(id, 0, map[]);
            var a := Write(blank, PutRecord(blank, keyId, x, wall));
            var b := Write(blank, PutRecord(blank, keyId, y, wall));
            Clash(a, b) && Exchanged(a, b, deltas).0.state != Exchanged(a, b, deltas).1.state
  {
    var blank := Node(id, 0, map[]);
    var a := Write(blank, PutRecord(blank, keyId, x, wall));
    var b := Write(blank, PutRecord(blank, keyId, y, wall));
    assert ClashAt(a, b, keyId);
    ClashIsPermanent(a, b, keyId, deltas);
  }
}
