/** The protocol model carries decoded packets. This module justifies it: in every run, whatever is on
    the way between the two sides has an encoding that decodes back to it. */
module BcUdpOnWire {
  import opened ByteStrings
  import opened Packets
  import opened BcUdpEndpoint
  import opened BcUdpProtocol

  /** What the endpoint may put on the wire fits the wire format. */
  ghost predicate Sendable(e: Endpoint) {
    && IsInt32(e.cameraId)
    && Representable(e.lastAckPacket)
    && (forall k :: k in e.sent ==> Representable(e.sent[k]))
  }

  ghost predicate AllFit(s: System) {
    && Sendable(s.a) && Sendable(s.b)
    && (forall p :: p in s.toA ==> Representable(p))
    && (forall p :: p in s.toB ==> Representable(p))
  }

  /** Latencies are 32-bit, and datagrams from elsewhere were decoded from bytes. */
  predicate EventFits(ev: Event) {
    match ev
    case Deliver(_, latency) => IsUint32(latency)
    case Stray(p) => Representable(p)
    case _ => true
  }

  lemma {:induction false} SendAllFits(e: Endpoint, frags: seq<Bytes>)
    requires Sendable(e) && forall f :: f in frags ==> |f| <= MAX_FRAGMENT
    ensures Sendable(SendAll(e, frags))
    ensures forall p :: p in Outgoing(e, frags) ==> Representable(p)
    decreases |frags|
  {
    if frags != [] {
      SendOneFits(e, frags[0]);
      hide SendOne, Sendable, Representable;
      SendAllFits(SendOne(e, frags[0]), frags[1..]);
    }
  }

  lemma SendOneFits(e: Endpoint, payload: Bytes)
    requires Sendable(e) && |payload| <= MAX_FRAGMENT
    ensures Sendable(SendOne(e, payload))
    ensures Representable(Data(e.cameraId, ToUint32(e.sendPacketId), payload))
  {
  }

  /** Every ACK a receiver can build fits: at most 200 entries and 32-bit ids. */
  lemma AckFits(cameraId: int, want: nat, keys: set<nat>, latency: nat)
    requires IsInt32(cameraId) && IsUint32(latency)
    ensures Representable(AckPacket(cameraId, want, keys, latency))
  {
    if want > 0 {
      AckMeaning(want, keys);
    }
  }

  lemma OnPacketFits(e: Endpoint, p: BcUdpPacket, latency: nat)
    requires Sendable(e) && IsUint32(latency)
    ensures Sendable(OnPacket(e, p, latency))
  {
    hide Flush, AckPacket, Acked, Representable;
    match p
    case Ack(conn, _, id, _, payload) =>
    case Data(conn, id, payload) =>
      var e1 := e.(received := e.received[id := payload]);
      var r := FlushReceived(e1);
      FlushFrame(e1);
      AckFits(e.cameraId, r.packetsWant, r.received.Keys, latency);
    case Discovery(_, _) =>
  }

  lemma StepAtAFits(s: System, ev: Event)
    requires AllFit(s) && EnabledAtA(s, ev) && EventFits(ev)
    ensures AllFit(StepAtA(s, ev))
  {
    hide SendAll, Outgoing, Fragments, OnPacket, Representable;
    match ev
    case Write(buf) =>
      FragmentsFaithful(buf);
      SendAllFits(s.a, Fragments(buf));
    case Deliver(p, latency) => OnPacketFits(s.a, p, latency);
    case Stray(p) => StrayFits(p);
    case _ =>
  }

  lemma StrayFits(p: BcUdpPacket)
    requires EventFits(Stray(p))
    ensures Representable(p)
  {
  }

  lemma {:induction false} RunFits(s: System, acts: seq<Action>)
    requires AllFit(s) && IsRun(s, acts)
    requires forall act :: act in acts ==> EventFits(act.event)
    ensures AllFit(Exec(s, acts))
    decreases |acts|
  {
    hide EventFits, EnabledAtA, StepAtA, Sendable, Representable;
    if acts != [] {
      StepAtAFits(if acts[0].atA then s else Swap(s), acts[0].event);
      RunFits(Step(s, acts[0]), acts[1..]);
    }
  }

  /** Every datagram on the way, in either direction and in every reachable state, is decoded to what
      was encoded, whatever bytes trail it. */
  lemma DatagramsSurviveTheWire(s0: System, acts: seq<Action>, p: BcUdpPacket, trailing: Bytes)
    requires Initial(s0) && IsRun(s0, acts)
    requires Sendable(s0.a) && Sendable(s0.b)
    requires forall act :: act in acts ==> EventFits(act.event)
    requires p in Exec(s0, acts).toA || p in Exec(s0, acts).toB
    ensures DecodeBcUdpPacket(Wire(p) + trailing) == Ok(p)
  {
    hide Exec, IsRun, Representable, Sendable, EventFits, Wire, DecodeBcUdpPacket;
    RunFits(s0, acts);
    WireDecodes(p, trailing);
  }
}
