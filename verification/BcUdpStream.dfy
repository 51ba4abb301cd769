/** The data path of `src/bcudp/BcUdpStream.ts` as an object: every handler is proved to take the
    endpoint it views to the one the specification in `BcUdpEndpoint.dfy` names. */
module BcUdpStreams {
  import opened ByteStrings
  import opened Packets
  import opened BcUdpEndpoint

  class BcUdpStream {
    const clientId: int
    const cameraId: int
    var sendPacketId: nat
    var packetsWant: nat
    var received: map<nat, Bytes>
    var sent: map<nat, BcUdpPacket>
    var lastAckPacket: BcUdpPacket
    var pendingData: seq<Bytes>
    var pendingDataOffset: nat
    var drainScheduled: bool

    ghost function View(): Endpoint
      reads this
    {
      Endpoint(clientId, cameraId, sendPacketId, sent, packetsWant, received, pendingData, pendingDataOffset,
               drainScheduled, lastAckPacket)
    }

    /** The state in which the timers start: nothing sent, nothing received, the empty ACK cached. */
    constructor (clientId: int, cameraId: int, latency: nat)
      ensures View() == Endpoint(clientId, cameraId, 0, map[], 0, map[], [], 0, false,
                                 Ack(cameraId, EMPTY_ACK_ID, EMPTY_ACK_ID, latency, []))
      ensures AckIsFresh(View())
    {
      this.clientId := clientId;
      this.cameraId := cameraId;
      sendPacketId, packetsWant, received, sent := 0, 0, map[], map[];
      pendingData, pendingDataOffset, drainScheduled := [], 0, false;
      lastAckPacket := Ack(cameraId, EMPTY_ACK_ID, EMPTY_ACK_ID, latency, []);
    }

    // -------------------------------------------------------------- sender

    method Write(buf: Bytes) returns (out: seq<BcUdpPacket>)
      modifies this
      ensures View() == SendAll(old(View()), Fragments(buf))
      ensures out == Outgoing(old(View()), Fragments(buf))
    {
      var off := 0;
      out := [];
      assert buf[0..] == buf;
      while off < |buf|
        invariant off <= |buf| || Fragments(buf[|buf|..]) == []
        invariant 0 <= off
        invariant var rest := if off <= |buf| then buf[off..] else [];
                  && SendAll(old(View()), Fragments(buf)) == SendAll(View(), Fragments(rest))
                  && Outgoing(old(View()), Fragments(buf)) == out + Outgoing(View(), Fragments(rest))
        decreases |buf| - off
      {
        var payload := buf[off..if off + MAX_FRAGMENT < |buf| then off + MAX_FRAGMENT else |buf|];
        ghost var rest := buf[off..];
        ghost var next := if off + MAX_FRAGMENT <= |buf| then buf[off + MAX_FRAGMENT..] else [];
        FirstFragment(rest);
        ghost var n := if |rest| < MAX_FRAGMENT then |rest| else MAX_FRAGMENT;
        assert payload == rest[..n] && next == rest[n..];
        var packetId := ToUint32(sendPacketId);
        sendPacketId := ToUint32(sendPacketId + 1);
        var pkt := Data(cameraId, packetId, payload);
        sent := sent[packetId := pkt];
        out := out + [pkt];
        off := off + MAX_FRAGMENT;
      }
    }

    /** Every outstanding fragment is sent once more: `ids` names the one each datagram stands for. */
    method ResendOutstanding() returns (out: seq<BcUdpPacket>, ghost ids: seq<nat>)
      ensures |out| == |ids| == |sent|
      ensures forall i :: 0 <= i < |out| ==> ids[i] in sent && out[i] == sent[ids[i]]
      ensures forall i, j :: 0 <= i < j < |ids| ==> ids[i] != ids[j]
      ensures forall k :: k in sent ==> k in ids
      ensures (set p | p in out) == View().sent.Values
    {
      out, ids := [], [];
      var keys := sent.Keys;
      while keys != {}
        invariant keys <= sent.Keys
        invariant |out| == |ids| && |ids| + |keys| == |sent|
        invariant forall i :: 0 <= i < |out| ==> ids[i] in sent && ids[i] !in keys && out[i] == sent[ids[i]]
        invariant forall i, j :: 0 <= i < j < |ids| ==> ids[i] != ids[j]
        invariant forall k :: k in sent ==> k in keys || k in ids
      {
        var k: nat :| k in keys;
        out, ids := out + [sent[k]], ids + [k];
        keys := keys - {k};
      }
      forall p ensures p in (set q | q in out) <==> p in sent.Values {
        if p in sent.Values {
          var k :| k in sent && sent[k] == p;
          var i :| 0 <= i < |ids| && ids[i] == k;
          assert out[i] == p;
        }
      }
    }

    method HandleAckFromCamera(packetId: nat, payload: Bytes)
      modifies this`sent
      ensures View() == OnAck(old(View()), packetId, payload)
      ensures forall k :: k in sent <==>
                && k in old(sent)
                && (packetId == 0xffff_ffff ||
                    (k > packetId && forall i :: 0 <= i < |payload| && payload[i] > 0 ==>
                       k != (packetId + 1 + i) % 0x1_0000_0000))
      ensures forall k :: k in sent ==> sent[k] == old(sent)[k]
    {
      ghost var start := View();
      ghost var before := sent;
      if packetId != EMPTY_ACK_ID {
        var keys := sent.Keys;
        while keys != {}
          invariant keys <= before.Keys
          invariant sent == map k | k in before && (k in keys || k > packetId) :: before[k]
        {
          var k: nat :| k in keys;
          if k <= packetId {
            sent := sent - {k};
          }
          keys := keys - {k};
        }
        for i := 0 to |payload|
          invariant sent == map k | k in before && !Acked(k, packetId, payload[..i]) :: before[k]
        {
          AckedStep(packetId, payload, i);
          if payload[i] > 0 {
            sent := sent - {ToUint32(packetId + 1 + i)};
          }
        }
        assert payload[..|payload|] == payload;
      }
      assert View() == OnAck(start, packetId, payload);
      forall k: nat ensures k in sent <==>
          && k in before
          && (packetId == 0xffff_ffff ||
              (k > packetId && forall i :: 0 <= i < |payload| && payload[i] > 0 ==> k != (packetId + 1 + i) % 0x1_0000_0000))
      {
        AckReleases(start, packetId, payload, k);
      }
    }

    // -------------------------------------------------------------- receiver

    method BuildAckPayload() returns (packetId: nat, payload: Bytes)
      ensures AckBody(packetId, payload) == BuildAck(packetsWant, received.Keys)
    {
      if packetsWant == 0 {
        return EMPTY_ACK_ID, [];
      }
      var firstMissing := packetsWant;
      ghost var f := FirstMissing(received.Keys, packetsWant);
      while firstMissing in received
        invariant packetsWant <= firstMissing <= f
        decreases f - firstMissing
      {
        firstMissing := firstMissing + 1;
      }
      var max: int := firstMissing - 1;
      var keys := received.Keys;
      while keys != {}
        invariant keys <= received.Keys
        invariant max >= firstMissing - 1 && (max >= firstMissing ==> max in received)
        invariant forall k :: k in received && k !in keys ==> k <= max
      {
        var k: nat :| k in keys;
        if k > max {
          max := k;
        }
        keys := keys - {k};
      }
      var maxAllowed := firstMissing + MAX_ACK_PAYLOAD_BYTES - 1;
      if max > maxAllowed {
        max := maxAllowed;
      }
      assert max == BitmapEnd(received.Keys, f);
      if max < firstMissing {
        return ToUint32(firstMissing - 1), [];
      }
      var len := max - firstMissing + 1;
      var bytes := new bv8[len];
      for i := 0 to len
        invariant forall j :: 0 <= j < i ==> bytes[j] == if firstMissing + j in received then 1 else 0
      {
        bytes[i] := if firstMissing + i in received then 1 else 0;
      }
      packetId, payload := ToUint32(firstMissing - 1), bytes[..];
    }

    method UpdateAckPacket(latency: nat)
      modifies this`lastAckPacket
      ensures lastAckPacket == AckPacket(cameraId, packetsWant, received.Keys, latency)
      ensures AckIsFresh(View())
    {
      var packetId, payload := BuildAckPayload();
      var groupId := if packetId == EMPTY_ACK_ID && |payload| == 0 then EMPTY_ACK_ID else 0;
      lastAckPacket := Ack(cameraId, groupId, packetId, latency, payload);
    }

    method FlushReceived()
      modifies this
      ensures View() == BcUdpEndpoint.FlushReceived(old(View()))
    {
      while packetsWant in received
        invariant Flush(View()) == Flush(old(View()))
        invariant drainScheduled == old(drainScheduled)
        decreases |received|
      {
        var chunk := received[packetsWant];
        received := received - {packetsWant};
        packetsWant := packetsWant + 1;
        pendingData := pendingData + [chunk];
      }
      if |pendingData| > pendingDataOffset {
        drainScheduled := true;
      }
    }

    method HandlePacket(p: BcUdpPacket, latency: nat)
      modifies this
      ensures View() == OnPacket(old(View()), p, latency)
    {
      match p
      case Ack(connectionId, _, packetId, _, payload) =>
        if connectionId == clientId {
          HandleAckFromCamera(packetId, payload);
        }
      case Data(connectionId, packetId, payload) =>
        if connectionId == clientId && packetId >= packetsWant {
          received := received[packetId := payload];
          FlushReceived();
          UpdateAckPacket(latency);
        }
      case Discovery(_, _) =>
    }

    /** The deferred drain: emit chunk after chunk; the listener throws on the chunk after the first
        `accepts`, if the queue is that long. */
    method Drain(accepts: nat) returns (emitted: seq<Bytes>)
      requires pendingDataOffset <= |pendingData|
      modifies this
      ensures |emitted| == (if accepts <= |Queue(old(View()))| then accepts else |Queue(old(View()))|)
      ensures emitted == Queue(old(View()))[..|emitted|]
      ensures View() == OnDrain(old(View()), |emitted|)
      ensures emitted + Queue(View()) == Queue(old(View()))
    {
      drainScheduled := false;
      emitted := [];
      while pendingDataOffset < |pendingData| && |emitted| < accepts
        invariant pendingData == old(pendingData)
        invariant old(pendingDataOffset) <= pendingDataOffset <= |pendingData|
        invariant |emitted| == pendingDataOffset - old(pendingDataOffset) <= accepts
        invariant emitted == pendingData[old(pendingDataOffset)..pendingDataOffset]
        invariant View() == old(View()).(drainScheduled := false, pendingDataOffset := pendingDataOffset)
        decreases |pendingData| - pendingDataOffset
      {
        emitted := emitted + [pendingData[pendingDataOffset]];
        pendingDataOffset := pendingDataOffset + 1;
      }
      if pendingDataOffset >= |pendingData| {
        pendingData := [];
        pendingDataOffset := 0;
      }
    }
  }

  /** The first fragment of a buffer, and what is left to cut. */
  lemma FirstFragment(buf: Bytes)
    requires buf != []
    ensures var n := if |buf| < MAX_FRAGMENT then |buf| else MAX_FRAGMENT;
            Fragments(buf) == [buf[..n]] + Fragments(buf[n..])
  {
    if |buf| <= MAX_FRAGMENT {
      assert buf[..|buf|] == buf && buf[|buf|..] == [];
    }
  }

  lemma AckedStep(packetId: nat, payload: Bytes, i: nat)
    requires i < |payload|
    ensures forall k: nat :: Acked(k, packetId, payload[..i + 1]) <==>
              || Acked(k, packetId, payload[..i])
              || (packetId != EMPTY_ACK_ID && payload[i] > 0 && k == ToUint32(packetId + 1 + i))
  {
    var shorter, longer := payload[..i], payload[..i + 1];
    assert forall j :: 0 <= j < i ==> shorter[j] == longer[j];
    assert longer[i] == payload[i];
    forall k: nat | Acked(k, packetId, longer)
      ensures Acked(k, packetId, shorter) || (payload[i] > 0 && k == ToUint32(packetId + 1 + i))
    {
      if k > packetId {
        var j :| 0 <= j < |longer| && longer[j] > 0 && k == ToUint32(packetId + 1 + j);
        assert j < i ==> shorter[j] > 0;
      }
    }
    forall k: nat | Acked(k, packetId, shorter) ensures Acked(k, packetId, longer) {
      if k > packetId {
        var j :| 0 <= j < |shorter| && shorter[j] > 0 && k == ToUint32(packetId + 1 + j);
        assert longer[j] > 0;
      }
    }
  }
}
