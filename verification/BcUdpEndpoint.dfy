/** One end of a BCUDP byte stream as a value, and what each event does to it
    (`src/bcudp/BcUdpStream.ts`). The class in `BcUdpStream.dfy` is proved to do exactly this; the
    protocol theorems in `BcUdpProtocol.dfy` are about two of these and a network. */
module BcUdpEndpoint {
  import opened ByteStrings
  import opened Packets

  const MTU: nat := 1350
  const DATA_HEADER_SIZE: nat := 20
  const MAX_FRAGMENT: nat := MTU - DATA_HEADER_SIZE
  const MAX_ACK_PAYLOAD_BYTES: nat := 200

  /** The packet and group id of the ACK sent before anything has been consumed. */
  const EMPTY_ACK_ID: nat := 0xffff_ffff

  datatype Endpoint = Endpoint(
    clientId: int,
    cameraId: int,
    sendPacketId: nat,
    sent: map<nat, BcUdpPacket>,
    packetsWant: nat,
    received: map<nat, Bytes>,
    pendingData: seq<Bytes>,
    pendingDataOffset: nat,
    drainScheduled: bool,
    lastAckPacket: BcUdpPacket)

  // ---------------------------------------------------------------- sending

  /** A buffer cut into datagram payloads. */
  function Fragments(buf: Bytes): seq<Bytes>
    decreases |buf|
  {
    if buf == [] then []
    else if |buf| <= MAX_FRAGMENT then [buf]
    else [buf[..MAX_FRAGMENT]] + Fragments(buf[MAX_FRAGMENT..])
  }

  function Flatten(chunks: seq<Bytes>): Bytes
    decreases |chunks|
  {
    if chunks == [] then [] else chunks[0] + Flatten(chunks[1..])
  }

  /** Fragmentation loses and reorders no byte, and every fragment fits a datagram and is nonempty. */
  lemma {:induction false} FragmentsFaithful(buf: Bytes)
    ensures Flatten(Fragments(buf)) == buf
    ensures forall f :: f in Fragments(buf) ==> 0 < |f| <= MAX_FRAGMENT == 1330
    ensures forall i :: 0 <= i < |Fragments(buf)| - 1 ==> |Fragments(buf)[i]| == MAX_FRAGMENT
    decreases |buf|
  {
    if buf == [] {
    } else if |buf| <= MAX_FRAGMENT {
      assert Flatten([buf]) == buf + Flatten([]);
    } else {
      FragmentsFaithful(buf[MAX_FRAGMENT..]);
      assert buf == buf[..MAX_FRAGMENT] + buf[MAX_FRAGMENT..];
    }
  }

  lemma {:induction false} FlattenConcat(s: seq<Bytes>, t: seq<Bytes>)
    ensures Flatten(s + t) == Flatten(s) + Flatten(t)
    decreases |s|
  {
    if s == [] {
      assert s + t == t;
    } else {
      assert (s + t)[1..] == s[1..] + t;
      FlattenConcat(s[1..], t);
    }
  }

  /** Register one fragment under the next packet id. */
  function SendOne(e: Endpoint, payload: Bytes): Endpoint {
    var id := ToUint32(e.sendPacketId);
    e.(sendPacketId := ToUint32(e.sendPacketId + 1), sent := e.sent[id := Data(e.cameraId, id, payload)])
  }

  function SendAll(e: Endpoint, frags: seq<Bytes>): Endpoint
    decreases |frags|
  {
    if frags == [] then e else SendAll(SendOne(e, frags[0]), frags[1..])
  }

  /** The datagrams those fragments leave in. */
  function Outgoing(e: Endpoint, frags: seq<Bytes>): seq<BcUdpPacket>
    decreases |frags|
  {
    if frags == [] then []
    else [Data(e.cameraId, ToUint32(e.sendPacketId), frags[0])] + Outgoing(SendOne(e, frags[0]), frags[1..])
  }

  /** The id of the `i`-th fragment from the next one on. */
  function NthId(first: nat, i: nat): nat { (first + i) % 0x1_0000_0000 }

  /** `k` is the id of one of the next `n` fragments. */
  ghost predicate AmongNext(first: nat, n: nat, k: nat) {
    exists i :: 0 <= i < n && k == NthId(first, i)
  }

  /** Every fragment leaves in its own datagram and stays in the resend buffer: fragment `i` under the id
      `i` behind the next one, modulo 2^32, for the camera. Nothing else changes. */
  ghost predicate SendsEach(e: Endpoint, frags: seq<Bytes>, r: Endpoint, out: seq<BcUdpPacket>) {
    var first := e.sendPacketId;
    && |out| == |frags|
    && (forall i :: 0 <= i < |frags| ==> out[i] == Data(e.cameraId, NthId(first, i), frags[i]))
    && (forall i :: 0 <= i < |frags| ==> NthId(first, i) in r.sent && r.sent[NthId(first, i)] == out[i])
    && (forall k :: k in r.sent <==> k in e.sent || AmongNext(first, |frags|, k))
    && (forall k :: k in e.sent && !AmongNext(first, |frags|, k) ==> r.sent[k] == e.sent[k])
    && r == e.(sendPacketId := NthId(first, |frags|), sent := r.sent)
  }

  lemma {:induction false} WriteMeaning(e: Endpoint, frags: seq<Bytes>)
    requires e.sendPacketId < 0x1_0000_0000 && |frags| < 0x1_0000_0000
    ensures SendsEach(e, frags, SendAll(e, frags), Outgoing(e, frags))
    decreases |frags|
  {
    hide SendsEach, ToUint32;
    if frags == [] {
      SendsNone(e);
    } else {
      var n := |frags| - 1;
      WriteMeaning(e, frags[..n]);
      SendSnoc(e, frags[..n], frags[n]);
      assert frags[..n] + [frags[n]] == frags;
      SendsOneMore(e, frags[..n], SendAll(e, frags[..n]), Outgoing(e, frags[..n]), frags[n]);
    }
  }

  lemma SendsNone(e: Endpoint)
    requires e.sendPacketId < 0x1_0000_0000
    ensures SendsEach(e, [], e, [])
  {
  }

  lemma SendsOneMore(e: Endpoint, frags: seq<Bytes>, r: Endpoint, out: seq<BcUdpPacket>, f: Bytes)
    requires SendsEach(e, frags, r, out) && |frags| + 1 < 0x1_0000_0000
    ensures SendsEach(e, frags + [f], SendOne(r, f), out + [Data(e.cameraId, ToUint32(r.sendPacketId), f)])
  {
    hide ToUint32, NthId;
    var first, n := e.sendPacketId, |frags|;
    NthIdNext(first, n);
    forall i | 0 <= i < n ensures NthId(first, i) != NthId(first, n) { NthIdsDiffer(first, i, n); }
    forall k: nat ensures AmongNext(first, n + 1, k) <==> AmongNext(first, n, k) || k == NthId(first, n) {
      if k == NthId(first, n) { assert AmongNext(first, n + 1, k); }
    }
  }

  lemma {:induction false} SendSnoc(e: Endpoint, frags: seq<Bytes>, last: Bytes)
    ensures SendAll(e, frags + [last]) == SendOne(SendAll(e, frags), last)
    ensures Outgoing(e, frags + [last]) ==
            Outgoing(e, frags) + [Data(e.cameraId, ToUint32(SendAll(e, frags).sendPacketId), last)]
    ensures SendAll(e, frags).cameraId == e.cameraId
    decreases |frags|
  {
    hide ToUint32;
    if frags == [] {
      assert frags + [last] == [last] && [last][1..] == [];
    } else {
      assert (frags + [last])[1..] == frags[1..] + [last];
      SendSnoc(SendOne(e, frags[0]), frags[1..], last);
    }
  }

  lemma NthIdNext(first: nat, n: nat)
    ensures ToUint32(NthId(first, n)) == NthId(first, n)
    ensures ToUint32(NthId(first, n) + 1) == NthId(first, n + 1)
  {
  }

  lemma NthIdsDiffer(first: nat, i: nat, j: nat)
    requires i < j < 0x1_0000_0000
    ensures NthId(first, i) != NthId(first, j)
  {
  }

  // ---------------------------------------------------------------- acknowledging

  /** The least id from `from` on that is not buffered. */
  function FirstMissing(keys: set<nat>, from: nat): (f: nat)
    ensures f >= from && f !in keys
    ensures forall k :: from <= k < f ==> k in keys
    decreases |keys|
  {
    if from in keys then
      var f := FirstMissing(keys - {from}, from + 1);
      assert forall k :: k in keys - {from} ==> k in keys;
      assert forall k :: from <= k < f && k != from ==> k in keys - {from};
      f
    else from
  }

  /** The greatest buffered id from `lo` on, or `lo - 1` if there is none. */
  ghost function Highest(keys: set<nat>, lo: nat): (hi: int)
    ensures hi >= lo - 1 && (hi >= lo ==> hi in keys)
    ensures forall k :: k in keys ==> k <= hi || k < lo
    decreases |keys|
  {
    if keys == {} then lo - 1
    else
      var k: nat :| k in keys;
      var rest := Highest(keys - {k}, lo);
      assert forall j :: j in keys ==> j == k || j in keys - {k};
      if k >= lo && k > rest then k else rest
  }

  datatype AckBody = AckBody(packetId: nat, payload: Bytes)

  /** Where the bitmap stops. */
  ghost function BitmapEnd(keys: set<nat>, f: nat): int {
    var hi := Highest(keys, f);
    if hi > f + MAX_ACK_PAYLOAD_BYTES - 1 then f + MAX_ACK_PAYLOAD_BYTES - 1 else hi
  }

  ghost function BuildAck(want: nat, keys: set<nat>): AckBody {
    if want == 0 then AckBody(EMPTY_ACK_ID, [])
    else
      var f := FirstMissing(keys, want);
      AckBody(ToUint32(f - 1), seq(BitmapEnd(keys, f) - f + 1, i => if f + i in keys then 1 else 0))
  }

  /** What an ACK tells the sender, for every receiver state that has consumed something. */
  lemma AckMeaning(want: nat, keys: set<nat>)
    requires want > 0
    ensures var f, a := FirstMissing(keys, want), BuildAck(want, keys);
            && a.packetId == ToUint32(f - 1)
            && |a.payload| <= MAX_ACK_PAYLOAD_BYTES
            && (|a.payload| > 0 ==> a.payload[0] == 0)
            && (forall i :: 0 <= i < |a.payload| ==> a.payload[i] == (if f + i in keys then 1 else 0))
            && (forall k :: k in keys && f <= k < f + MAX_ACK_PAYLOAD_BYTES ==> k - f < |a.payload|)
            && (a.payload == [] <==> forall k :: k in keys ==> k < f)
            && (0 < |a.payload| < MAX_ACK_PAYLOAD_BYTES ==> a.payload[|a.payload| - 1] == 1)
  {
  }

  /** The ACK datagram: the group id marks the one special ACK. */
  ghost function AckPacket(cameraId: int, want: nat, keys: set<nat>, latency: nat): BcUdpPacket {
    var a := BuildAck(want, keys);
    Ack(cameraId, if a.packetId == EMPTY_ACK_ID && |a.payload| == 0 then EMPTY_ACK_ID else 0,
        a.packetId, latency, a.payload)
  }

  /** The cached ACK is the one the current state calls for. */
  ghost predicate AckIsFresh(e: Endpoint) {
    && e.lastAckPacket.Ack?
    && e.lastAckPacket == AckPacket(e.cameraId, e.packetsWant, e.received.Keys, e.lastAckPacket.maybeLatency)
  }

  /** Group id 0xffffffff appears exactly when nothing has been consumed. */
  lemma GroupIdMarksNothingConsumed(e: Endpoint)
    requires AckIsFresh(e)
    requires FirstMissing(e.received.Keys, e.packetsWant) < TWO32
    ensures e.lastAckPacket.groupId == EMPTY_ACK_ID <==> e.packetsWant == 0
    ensures e.lastAckPacket.groupId == 0 <==> e.packetsWant > 0
    ensures e.packetsWant == 0 ==> e.lastAckPacket.packetId == EMPTY_ACK_ID && e.lastAckPacket.payload == []
  {
    if e.packetsWant > 0 {
      AckMeaning(e.packetsWant, e.received.Keys);
    }
  }

  // ---------------------------------------------------------------- receiving

  /** Move the contiguous run at `packetsWant` to the drain queue. */
  function Flush(e: Endpoint): (r: Endpoint)
    ensures r.packetsWant !in r.received
    ensures r.packetsWant >= e.packetsWant
    decreases |e.received|
  {
    if e.packetsWant in e.received then
      Flush(e.(received := e.received - {e.packetsWant},
               packetsWant := e.packetsWant + 1,
               pendingData := e.pendingData + [e.received[e.packetsWant]]))
    else e
  }

  /** Flushing touches only the receiving fields. */
  lemma {:induction false} FlushFrame(e: Endpoint)
    ensures var r := Flush(e);
            r == e.(received := r.received, packetsWant := r.packetsWant, pendingData := r.pendingData)
    decreases |e.received|
  {
    if e.packetsWant in e.received {
      FlushFrame(e.(received := e.received - {e.packetsWant}, packetsWant := e.packetsWant + 1,
                    pendingData := e.pendingData + [e.received[e.packetsWant]]));
    }
  }

  function FlushReceived(e: Endpoint): Endpoint {
    var r := Flush(e);
    if |r.pendingData| > r.pendingDataOffset then r.(drainScheduled := true) else r
  }

  /** The ids an ACK releases at the sender. */
  predicate Acked(k: nat, packetId: nat, payload: Bytes) {
    && packetId != EMPTY_ACK_ID
    && (k <= packetId || exists i :: 0 <= i < |payload| && payload[i] > 0 && k == ToUint32(packetId + 1 + i))
  }

  ghost function OnAck(e: Endpoint, packetId: nat, payload: Bytes): Endpoint {
    e.(sent := map k | k in e.sent && !Acked(k, packetId, payload) :: e.sent[k])
  }

  /** What an ACK leaves in the resend buffer, in numbers: 0xffffffff releases nothing; any other id `p`
      releases every id up to it, and each nonzero entry `i` releases the id `p + 1 + i` modulo 2^32. */
  lemma AckReleases(e: Endpoint, packetId: nat, payload: Bytes, k: nat)
    ensures var r := OnAck(e, packetId, payload);
            && (k in r.sent <==>
                  && k in e.sent
                  && (packetId == 0xffff_ffff ||
                      (k > packetId && forall i :: 0 <= i < |payload| && payload[i] > 0 ==>
                         k != (packetId + 1 + i) % 0x1_0000_0000)))
            && (k in r.sent ==> r.sent[k] == e.sent[k])
            && r == e.(sent := r.sent)
  {
  }

  ghost function OnData(e: Endpoint, packetId: nat, payload: Bytes, latency: nat): Endpoint {
    if packetId >= e.packetsWant then
      var r := FlushReceived(e.(received := e.received[packetId := payload]));
      r.(lastAckPacket := AckPacket(r.cameraId, r.packetsWant, r.received.Keys, latency))
    else e
  }

  /** The ACK cached on new data carries the latency measured then, addressed to the peer. */
  lemma AckCarriesLatency(e: Endpoint, packetId: nat, payload: Bytes, latency: nat)
    requires packetId >= e.packetsWant
    ensures var a := OnData(e, packetId, payload, latency).lastAckPacket;
            a.Ack? && a.maybeLatency == latency && a.connectionId == e.cameraId
  {
    FlushFrame(e.(received := e.received[packetId := payload]));
  }

  /** A decoded datagram arrives. */
  ghost function OnPacket(e: Endpoint, p: BcUdpPacket, latency: nat): Endpoint {
    match p
    case Ack(conn, _, id, _, payload) => if conn == e.clientId then OnAck(e, id, payload) else e
    case Data(conn, id, payload) => if conn == e.clientId then OnData(e, id, payload, latency) else e
    case Discovery(_, _) => e
  }

  /** The drain callback runs and the listener accepts `n` chunks before it throws or the queue ends. */
  function OnDrain(e: Endpoint, n: nat): Endpoint
    requires e.pendingDataOffset + n <= |e.pendingData|
  {
    if e.pendingDataOffset + n == |e.pendingData|
    then e.(drainScheduled := false, pendingData := [], pendingDataOffset := 0)
    else e.(drainScheduled := false, pendingDataOffset := e.pendingDataOffset + n)
  }

  /** The chunks handed to the listener but not yet accepted. */
  function Queue(e: Endpoint): seq<Bytes>
    requires e.pendingDataOffset <= |e.pendingData|
  {
    e.pendingData[e.pendingDataOffset..]
  }
}
