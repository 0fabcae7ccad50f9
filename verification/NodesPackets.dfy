/**
 * Answering a FINDNODE request: the records are split over several NODES packets, and the
 * requester puts them together again.
 */
module NodesPackets {
  import opened Filters

  const MAX_PACKET_SIZE := 1280
  const OVERHEAD := 104
  const BUDGET := MAX_PACKET_SIZE - OVERHEAD
  const MAX_RECORD_SIZE := 300

  datatype Record = Record(id: nat, size: nat)

  function Size(records: seq<Record>): nat {
    if records == [] then 0 else Size(records[..|records| - 1]) + records[|records| - 1].size
  }

  function Flatten(packets: seq<seq<Record>>): seq<Record> {
    if packets == [] then [] else Flatten(packets[..|packets| - 1]) + packets[|packets| - 1]
  }

  // ---- Splitting

  /** A packet is within the budget, or it is one record that is over it on its own. */
  ghost predicate Fits(packet: seq<Record>) {
    Size(packet) < BUDGET || |packet| == 1
  }

  /** The packets are a greedy split: only the first can be empty, and none could take more. */
  ghost predicate GreedySplit(records: seq<Record>, packets: seq<seq<Record>>) {
    && packets != [] && Flatten(packets) == records
    && (forall p :: 0 <= p < |packets| ==> Fits(packets[p]))
    && (forall p :: 1 <= p < |packets| ==> packets[p] != [])
    && (forall p, q :: 0 <= p && q == p + 1 && q < |packets| ==> Full(packets[p], packets[q]))
  }

  /** The first record of the next packet would not have fitted in this one. */
  ghost predicate Full(packet: seq<Record>, next: seq<Record>) {
    next != [] ==> Size(packet) + next[0].size >= BUDGET
  }

  lemma GreedyIs(records: seq<Record>, packets: seq<seq<Record>>)
    requires GreedySplit(records, packets)
    ensures Flatten(packets) == records
    ensures forall p :: 0 <= p < |packets| ==> Size(packets[p]) < 1280 - 104 || |packets[p]| == 1
    ensures forall q :: 1 <= q < |packets| ==> packets[q] != []
    ensures forall p, q :: 0 <= p && q == p + 1 && q < |packets| && packets[q] != [] ==>
      Size(packets[p]) + packets[q][0].size >= 1280 - 104
  {
    hide Size, Flatten;
    forall p, q | 0 <= p && q == p + 1 && q < |packets| && packets[q] != []
      ensures Size(packets[p]) + packets[q][0].size >= 1280 - 104
    {
      assert Full(packets[p], packets[q]);
    }
  }

  method SplitNodes(records: seq<Record>) returns (packets: seq<seq<Record>>, total: nat)
    ensures total == |packets|
    ensures Flatten(packets) == records
    ensures forall p :: 0 <= p < |packets| ==> Size(packets[p]) < 1280 - 104 || |packets[p]| == 1
    ensures forall q :: 1 <= q < |packets| ==> packets[q] != []
    ensures forall p, q :: 0 <= p && q == p + 1 && q < |packets| && packets[q] != [] ==>
      Size(packets[p]) + packets[q][0].size >= 1280 - 104
    ensures GreedySplit(records, packets)
  {
    hide *;
    packets, total := FillPackets(records);
    GreedyIs(records, packets);
  }

  method FillPackets(records: seq<Record>) returns (packets: seq<seq<Record>>, total: nat)
    ensures total == |packets| && GreedySplit(records, packets)
  {
    hide GreedySplit, Size, Flatten;
    packets := [[]];
    var totalSize, index := 0, 0;
    NothingSplit();
    assert records[..0] == [];
    for k := 0 to |records|
      invariant index + 1 == |packets|
      invariant GreedySplit(records[..k], packets)
      invariant totalSize == Size(packets[index])
    {
      var entry := records[k];
      assert records[..k + 1] == records[..k] + [entry];
      AddRecord(records[..k], packets, entry);
      if entry.size + totalSize < BUDGET {
        totalSize := totalSize + entry.size;
        packets := packets[index := packets[index] + [entry]];
      } else {
        totalSize := entry.size;
        packets := packets + [[entry]];
        index := index + 1;
      }
    }
    assert records[..|records|] == records;
    total := index + 1;
  }

  lemma NothingSplit()
    ensures GreedySplit([], [[]]) && Size([]) == 0
  {
    var packets: seq<seq<Record>> := [[]];
    assert packets[..0] == [];
  }

  lemma SizeAppend(packet: seq<Record>, entry: Record)
    ensures Size(packet + [entry]) == Size(packet) + entry.size
  {
    assert (packet + [entry])[..|packet|] == packet;
  }

  lemma AddRecord(records: seq<Record>, packets: seq<seq<Record>>, entry: Record)
    requires packets != [] && GreedySplit(records, packets)
    ensures Size(packets[|packets| - 1] + [entry]) == Size(packets[|packets| - 1]) + entry.size
    ensures Size([entry]) == entry.size
    ensures var last := packets[|packets| - 1];
      GreedySplit(records + [entry],
        if entry.size + Size(last) < BUDGET then packets[|packets| - 1 := last + [entry]] else packets + [[entry]])
  {
    var n := |packets| - 1;
    var last := packets[n];
    SizeAppend(last, entry);
    SizeAppend([], entry);
    assert [] + [entry] == [entry];
    if entry.size + Size(last) < BUDGET {
      AddToLast(records, packets, entry);
    } else {
      AddNewLast(records, packets, entry);
    }
  }

  lemma AddToLast(records: seq<Record>, packets: seq<seq<Record>>, entry: Record)
    requires GreedySplit(records, packets)
    requires Size(packets[|packets| - 1] + [entry]) < BUDGET
    ensures GreedySplit(records + [entry], packets[|packets| - 1 := packets[|packets| - 1] + [entry]])
  {
    hide Size;
    var n := |packets| - 1;
    var next := packets[n := packets[n] + [entry]];
    assert next[..n] == packets[..n];
    forall p, q | 0 <= p && q == p + 1 && q < |next| ensures Full(next[p], next[q]) {
      assert Full(packets[p], packets[q]);
    }
  }

  lemma AddNewLast(records: seq<Record>, packets: seq<seq<Record>>, entry: Record)
    requires GreedySplit(records, packets)
    requires Size(packets[|packets| - 1]) + entry.size >= BUDGET
    ensures GreedySplit(records + [entry], packets + [[entry]])
  {
    hide Size;
    var next := packets + [[entry]];
    assert next[..|packets|] == packets;
    forall p, q | 0 <= p && q == p + 1 && q < |next| ensures Full(next[p], next[q]) {
      if q < |packets| { assert Full(packets[p], packets[q]); }
    }
  }

  ghost predicate Below(records: seq<Record>, limit: nat) {
    forall k :: 0 <= k < |records| ==> records[k].size < limit
  }

  lemma {:induction false} SizeBounds(packet: seq<Record>, limit: nat)
    ensures Below(packet, limit + 1) ==> Size(packet) <= limit * |packet|
    ensures forall k :: 0 <= k < |packet| ==> packet[k].size <= Size(packet)
  {
    if packet != [] {
      var n := |packet| - 1;
      SizeBounds(packet[..n], limit);
      OneMore(limit, n);
      assert forall k :: 0 <= k < n ==> packet[..n][k] == packet[k];
    }
  }

  lemma OneMore(a: nat, n: nat)
    ensures a * (n + 1) == a * n + a
  {
  }

  /** The records of a packet are records of the list. */
  lemma {:induction false} PacketWithin(packets: seq<seq<Record>>, p: nat, limit: nat)
    requires p < |packets| && Below(Flatten(packets), limit)
    ensures Below(packets[p], limit)
  {
    var n := |packets| - 1;
    var (a, b) := (Flatten(packets[..n]), packets[n]);
    assert forall k :: 0 <= k < |a| ==> a[k] == Flatten(packets)[k];
    assert forall k :: 0 <= k < |b| ==> b[k] == Flatten(packets)[|a| + k];
    if p < n {
      PacketWithin(packets[..n], p, limit);
    }
  }

  lemma {:induction false} WithinPackets(packets: seq<seq<Record>>, limit: nat)
    requires forall p :: 0 <= p < |packets| ==> Below(packets[p], limit)
    ensures Below(Flatten(packets), limit)
  {
    if packets != [] {
      WithinPackets(packets[..|packets| - 1], limit);
    }
  }

  ghost predicate WithinBudget(packets: seq<seq<Record>>) {
    forall p :: 0 <= p < |packets| ==> Size(packets[p]) < BUDGET
  }

  /** All packets are within the budget exactly when no record is over it on its own. */
  lemma BudgetKept(records: seq<Record>, packets: seq<seq<Record>>)
    requires GreedySplit(records, packets)
    ensures WithinBudget(packets) <==> Below(records, BUDGET)
  {
    hide Size, Flatten;
    if Below(records, BUDGET) {
      forall p | 0 <= p < |packets| ensures Size(packets[p]) < BUDGET {
        PacketWithin(packets, p, BUDGET);
        assert Fits(packets[p]);
        if |packets[p]| == 1 {
          SizeAppend([], packets[p][0]);
          assert packets[p] == [] + [packets[p][0]];
          SizeEmpty();
        }
      }
    }
    if WithinBudget(packets) {
      forall p | 0 <= p < |packets| ensures Below(packets[p], BUDGET) {
        SizeBounds(packets[p], 0);
      }
      WithinPackets(packets, BUDGET);
    }
  }

  lemma SizeEmpty()
    ensures Size([]) == 0
  {
  }

  /** With records of at most 300 bytes, every packet but the last holds at least three. */
  lemma AtLeastThree(records: seq<Record>, packets: seq<seq<Record>>, p: nat)
    requires GreedySplit(records, packets) && Below(records, MAX_RECORD_SIZE + 1) && p + 1 < |packets|
    ensures |packets[p]| >= 3
  {
    hide Size, Flatten;
    var q := p + 1;
    PacketWithin(packets, p, MAX_RECORD_SIZE + 1);
    PacketWithin(packets, q, MAX_RECORD_SIZE + 1);
    assert Full(packets[p], packets[q]) && packets[q] != [];
    assert packets[q][0].size <= MAX_RECORD_SIZE;
    SizeBounds(packets[p], MAX_RECORD_SIZE);
  }

  lemma {:induction false} FlattenLong(packets: seq<seq<Record>>, c: nat)
    requires forall p :: 0 <= p < |packets| ==> |packets[p]| >= c
    ensures |Flatten(packets)| >= c * |packets|
  {
    if packets != [] {
      var n := |packets| - 1;
      FlattenLong(packets[..n], c);
      OneMore(c, n);
    }
  }

  /** So a list of small records needs no more packets than a third of its length, rounded up. */
  lemma PacketCount(records: seq<Record>, packets: seq<seq<Record>>)
    requires GreedySplit(records, packets) && Below(records, MAX_RECORD_SIZE + 1)
    ensures |packets| <= if records == [] then 1 else (|records| + 2) / 3
  {
    hide Size;
    var n := |packets| - 1;
    LastNonEmpty(records, packets);
    forall p | 0 <= p < n ensures |packets[..n][p]| >= 3 {
      AtLeastThree(records, packets, p);
    }
    FlattenLong(packets[..n], 3);
  }

  /** The last packet has a record unless there is none at all. */
  lemma LastNonEmpty(records: seq<Record>, packets: seq<seq<Record>>)
    requires GreedySplit(records, packets)
    ensures packets[|packets| - 1] == [] ==> records == [] && |packets| == 1
  {
    hide Size;
    if |packets| == 1 {
      assert Flatten(packets) == Flatten(packets[..0]) + packets[0];
    }
  }

  // ---- Reassembly

  /** Records at a distance that was not asked for are dropped. */
  function Retain(wanted: Record -> bool, nodes: seq<Record>): seq<Record> {
    if nodes == [] then []
    else Retain(wanted, nodes[..|nodes| - 1]) + if wanted(nodes[|nodes| - 1]) then [nodes[|nodes| - 1]] else []
  }

  /** Exactly the wanted records are left, in their order. */
  lemma {:induction false} RetainFilters(wanted: Record -> bool, nodes: seq<Record>)
    ensures Filtered(wanted, nodes, Retain(wanted, nodes))
    decreases |nodes|
  {
    hide Filtered;
    if nodes == [] {
      FilteredNone(wanted);
    } else {
      var n := |nodes| - 1;
      RetainFilters(wanted, nodes[..n]);
      var kept := Retain(wanted, nodes[..n]);
      FilteredNext(wanted, nodes[..n], kept, nodes[n]);
      assert nodes == nodes[..n] + [nodes[n]];
      assert Retain(wanted, nodes) == if wanted(nodes[n]) then kept + [nodes[n]] else kept;
    }
  }

  /** Each as often as it came, and the others not at all. */
  lemma {:induction false} RetainCount(wanted: Record -> bool, nodes: seq<Record>, x: Record)
    ensures multiset(Retain(wanted, nodes))[x] == if wanted(x) then multiset(nodes)[x] else 0
    decreases |nodes|
  {
    if nodes != [] {
      var n := |nodes| - 1;
      RetainCount(wanted, nodes[..n], x);
      assert nodes == nodes[..n] + [nodes[n]];
    }
  }

  lemma {:induction false} RetainConcat(wanted: Record -> bool, a: seq<Record>, b: seq<Record>)
    ensures Retain(wanted, a + b) == Retain(wanted, a) + Retain(wanted, b)
  {
    if b == [] {
      assert a + b == a;
    } else {
      assert (a + b)[..|a + b| - 1] == a + b[..|b| - 1];
      RetainConcat(wanted, a, b[..|b| - 1]);
    }
  }

  lemma {:induction false} RetainAll(wanted: Record -> bool, nodes: seq<Record>)
    requires forall k :: 0 <= k < |nodes| ==> wanted(nodes[k])
    ensures Retain(wanted, nodes) == nodes
  {
    if nodes != [] {
      RetainAll(wanted, nodes[..|nodes| - 1]);
    }
  }

  type NodeId = nat
  type RequestId = nat

  /** The packets received so far, counting the one awaited, and the records they held. */
  datatype NodesResponse = NodesResponse(count: nat, received: seq<Record>)

  datatype Request = Request(node: NodeId, wanted: Record -> bool)

  /** The records that the service was told about, with the node they came from. */
  datatype Discovery = Discovery(node: NodeId, nodes: seq<Record>)

  class Requester {
    const maxNodesResponse: nat
    var requests: map<RequestId, Request>
    var responses: map<NodeId, NodesResponse>
    var discovered: seq<Discovery>

    constructor (max: nat)
      ensures maxNodesResponse == max && requests == map[] && responses == map[] && discovered == []
    {
      maxNodesResponse := max;
      requests, responses, discovered := map[], map[], [];
    }

    /** The number of packets that are waited for. */
    function Patience(): nat {
      maxNodesResponse / 3 + 1
    }

    method HandleNodes(id: RequestId, from: NodeId, total: nat, packet: seq<Record>)
      modifies this
      ensures forall other :: other != id ==>
        (other in requests <==> other in old(requests)) && (other in requests ==> requests[other] == old(requests)[other])
      ensures forall other :: other != from ==>
        (other in responses <==> other in old(responses)) && (other in responses ==> responses[other] == old(responses)[other])
      ensures id !in old(requests) || old(requests)[id].node != from ==>
        id !in requests && responses == old(responses) && discovered == old(discovered)
      ensures id in old(requests) && old(requests)[id].node == from ==>
        var known := if from in old(responses) then old(responses)[from] else NodesResponse(1, []);
        var nodes := Retain(old(requests)[id].wanted, packet);
        if 1 < total && known.count < total && known.count < maxNodesResponse / 3 + 1 then
          && requests == old(requests) && discovered == old(discovered)
          && from in responses && responses[from] == NodesResponse(known.count + 1, known.received + nodes)
        else
          && id !in requests && from !in responses
          && discovered == old(discovered) + [Discovery(from, if total > 1 then known.received + nodes else nodes)]
    {
      if id !in requests { return; }
      var request := requests[id];
      requests := requests - {id};
      if request.node != from { return; }
      var nodes := Retain(request.wanted, packet);
      if total > 1 {
        var current := if from in responses then responses[from] else NodesResponse(1, []);
        responses := responses - {from};
        if current.count < Patience() && current.count < total {
          responses := responses[from := NodesResponse(current.count + 1, current.received + nodes)];
          requests := requests[id := request];
          return;
        }
        nodes := current.received + nodes;
      }
      responses := responses - {from};
      discovered := discovered + [Discovery(from, nodes)];
    }

    /**
     * Packets that arrive in order for an outstanding request lead to one discovery, made of as
     * many of them as are waited for; whatever comes later is ignored.
     */
    method Receive(id: RequestId, from: NodeId, packets: seq<seq<Record>>)
      requires id in requests && requests[id].node == from && from !in responses && packets != []
      modifies this
      ensures var patience := maxNodesResponse / 3 + 1;
        var taken := if |packets| <= patience then packets else packets[..patience];
        discovered == old(discovered) + [Discovery(from, Retain(old(requests)[id].wanted, Flatten(taken)))]
      ensures id !in requests && from !in responses
    {
      hide Retain, Flatten;
      ghost var request := requests[id];
      ghost var stop := if |packets| <= Patience() then |packets| else Patience();
      ghost var start := discovered;
      NothingYet(request.wanted, packets);
      for k := 0 to |packets|
        invariant k < stop ==> id in requests && requests[id] == request && discovered == start
        invariant k < stop && k == 0 ==> from !in responses
        invariant 0 < k < stop ==>
          from in responses && responses[from] == NodesResponse(k + 1, Retain(request.wanted, Flatten(packets[..k])))
        invariant k >= stop ==>
          && id !in requests && from !in responses
          && discovered == start + [Discovery(from, Retain(request.wanted, Flatten(packets[..stop])))]
      {
        OnePacketMore(request.wanted, packets, k);
        assert k + 1 == stop ==> packets[..stop] == packets[..k + 1];
        HandleNodes(id, from, |packets|, packets[k]);
      }
      assert packets[..|packets|] == packets;
    }
  }

  lemma NothingYet(wanted: Record -> bool, packets: seq<seq<Record>>)
    ensures Retain(wanted, Flatten(packets[..0])) == []
  {
  }

  lemma OnePacketMore(wanted: Record -> bool, packets: seq<seq<Record>>, k: nat)
    requires k < |packets|
    ensures Retain(wanted, Flatten(packets[..k + 1])) == Retain(wanted, Flatten(packets[..k])) + Retain(wanted, packets[k])
    ensures k == 0 ==> Retain(wanted, Flatten(packets[..k + 1])) == Retain(wanted, packets[k])
  {
    assert packets[..k + 1][..k] == packets[..k];
    RetainConcat(wanted, Flatten(packets[..k]), packets[k]);
  }

  lemma {:induction false} FlattenPrefix(packets: seq<seq<Record>>, k: nat)
    requires k <= |packets|
    ensures |Flatten(packets[..k])| <= |Flatten(packets)|
    ensures k < |packets| && packets[|packets| - 1] != [] ==> |Flatten(packets[..k])| < |Flatten(packets)|
    decreases |packets|
  {
    var n := |packets| - 1;
    if k < |packets| {
      assert packets[..n][..k] == packets[..k];
      FlattenPrefix(packets[..n], k);
    } else {
      assert packets[..k] == packets;
    }
  }

  /** Waiting for this many packets of a split yields the whole list exactly if there are no more. */
  lemma ReassembledExactly(records: seq<Record>, packets: seq<seq<Record>>, patience: nat)
    requires GreedySplit(records, packets) && patience >= 1
    ensures Flatten(if |packets| <= patience then packets else packets[..patience]) == records <==> |packets| <= patience
  {
    if |packets| > patience {
      FlattenPrefix(packets, patience);
    }
  }

  /**
   * Splitting on one side, receiving on the other: all records that were asked for arrive in one
   * report, also when the sender adds its own record to as many as are configured.
   */
  method Exchange(records: seq<Record>, requester: Requester, id: RequestId, from: NodeId)
    requires id in requester.requests && requester.requests[id].node == from && from !in requester.responses
    requires Below(records, MAX_RECORD_SIZE + 1) && |records| <= requester.maxNodesResponse + 1
    modifies requester
    ensures var n := |old(requester.discovered)|;
      && |requester.discovered| == n + 1 && requester.discovered[..n] == old(requester.discovered)
      && requester.discovered[n].node == from
      && Filtered(old(requester.requests)[id].wanted, records, requester.discovered[n].nodes)
    ensures (forall k :: 0 <= k < |records| ==> old(requester.requests)[id].wanted(records[k])) ==>
      requester.discovered == old(requester.discovered) + [Discovery(from, records)]
  {
    hide Flatten, Filtered, Retain;
    RetainFilters(requester.requests[id].wanted, records);
    var packets, total := SplitNodes(records);
    PacketCount(records, packets);
    if forall k :: 0 <= k < |records| ==> requester.requests[id].wanted(records[k]) {
      RetainAll(requester.requests[id].wanted, records);
    }
    requester.Receive(id, from, packets);
  }
}
