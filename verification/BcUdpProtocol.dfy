/** Two BCUDP endpoints and a network that loses, duplicates, delays and reorders datagrams. */
module BcUdpProtocol {
  import opened ByteStrings
  import opened Packets
  import opened BcUdpEndpoint

  /** `toA` and `toB` hold every datagram ever put on the way to that side: it may be delivered never,
      once or many times, in any order. The logs are history: `logA[i]` is the payload A gave packet
      id `i`, `wroteA` the bytes A wrote, `outA` the chunks A's listener accepted. */
  datatype System = System(
    a: Endpoint, b: Endpoint,
    toA: set<BcUdpPacket>, toB: set<BcUdpPacket>,
    logA: seq<Bytes>, logB: seq<Bytes>,
    wroteA: Bytes, wroteB: Bytes,
    outA: seq<Bytes>, outB: seq<Bytes>)

  /** The same system seen from the other side. */
  function Swap(s: System): System {
    System(s.b, s.a, s.toB, s.toA, s.logB, s.logA, s.wroteB, s.wroteA, s.outB, s.outA)
  }

  datatype Event =
    | Write(buf: Bytes)
    | AckTick
    | ResendTick
    | Deliver(p: BcUdpPacket, latency: nat)
    | Stray(p: BcUdpPacket)
    | Drain(accepts: nat)

  /** An event at one of the two sides. */
  datatype Action = Action(atA: bool, event: Event)

  predicate IsForConnection(p: BcUdpPacket, e: Endpoint) {
    match p
    case Discovery(_, _) => false
    case Ack(conn, _, _, _, _) => conn == e.clientId
    case Data(conn, _, _) => conn == e.clientId
  }

  /** What may happen at A. Ids do not wrap: fewer than 2^32 - 1 packets are written each way. */
  ghost predicate EnabledAtA(s: System, ev: Event) {
    match ev
    case Write(buf) => |s.logA| + |Fragments(buf)| < EMPTY_ACK_ID
    case AckTick => true
    case ResendTick => true
    case Deliver(p, _) => p in s.toA
    case Stray(p) => !IsForConnection(p, s.a)
    case Drain(n) => s.a.drainScheduled && s.a.pendingDataOffset + n <= |s.a.pendingData|
  }

  ghost function StepAtA(s: System, ev: Event): System
    requires EnabledAtA(s, ev)
  {
    match ev
    case Write(buf) =>
      var frags := Fragments(buf);
      s.(a := SendAll(s.a, frags), toB := s.toB + (set p | p in Outgoing(s.a, frags)),
         logA := s.logA + frags, wroteA := s.wroteA + buf)
    case AckTick => s.(toB := s.toB + {s.a.lastAckPacket})
    case ResendTick => s.(toB := s.toB + s.a.sent.Values)
    case Deliver(p, latency) => s.(a := OnPacket(s.a, p, latency))
    case Stray(p) => s.(toA := s.toA + {p})
    case Drain(n) => s.(a := OnDrain(s.a, n), outA := s.outA + Queue(s.a)[..n])
  }

  ghost predicate Enabled(s: System, act: Action) {
    EnabledAtA(if act.atA then s else Swap(s), act.event)
  }

  ghost function Step(s: System, act: Action): System
    requires Enabled(s, act)
  {
    if act.atA then StepAtA(s, act.event) else Swap(StepAtA(Swap(s), act.event))
  }

  /** A run: each action is enabled where it happens. */
  ghost predicate IsRun(s: System, acts: seq<Action>)
    decreases |acts|
  {
    acts != [] ==> Enabled(s, acts[0]) && IsRun(Step(s, acts[0]), acts[1..])
  }

  ghost function Exec(s: System, acts: seq<Action>): System
    requires IsRun(s, acts)
    decreases |acts|
  {
    if acts == [] then s else Exec(Step(s, acts[0]), acts[1..])
  }

  /** Both sides right after the handshake gave them each other's connection ids. */
  ghost predicate Initial(s: System) {
    && s.a.cameraId == s.b.clientId && s.b.cameraId == s.a.clientId
    && Fresh(s.a) && Fresh(s.b)
    && s.toA == {} && s.toB == {} && s.logA == [] && s.logB == []
    && s.wroteA == [] && s.wroteB == [] && s.outA == [] && s.outB == []
  }

  ghost predicate Fresh(e: Endpoint) {
    && e.sendPacketId == 0 && e.sent == map[] && e.packetsWant == 0 && e.received == map[]
    && e.pendingData == [] && e.pendingDataOffset == 0 && !e.drainScheduled && AckIsFresh(e)
  }

  // ---------------------------------------------------------------- the invariant

  /** The receiver has the packet: consumed or buffered. */
  ghost predicate Held(e: Endpoint, id: nat) {
    id < e.packetsWant || id in e.received
  }

  ghost predicate SenderOk(e: Endpoint, log: seq<Bytes>, wrote: Bytes) {
    && e.sendPacketId == |log| < EMPTY_ACK_ID
    && (forall k :: k in e.sent ==> k < |log| && e.sent[k] == Data(e.cameraId, k, log[k]))
    && Flatten(log) == wrote
  }

  /** Buffered and consumed data agree with what was written, in order and without gaps. */
  ghost predicate ReceiverTracks(e: Endpoint, log: seq<Bytes>, accepted: seq<Bytes>) {
    && e.packetsWant <= |log|
    && (forall k :: k in e.received ==> e.packetsWant <= k < |log| && e.received[k] == log[k])
    && e.pendingDataOffset <= |e.pendingData|
    && accepted + Queue(e) == log[..e.packetsWant]
  }

  ghost predicate ReceiverOk(e: Endpoint, log: seq<Bytes>, accepted: seq<Bytes>) {
    && ReceiverTracks(e, log, accepted)
    && e.packetsWant !in e.received
    && AckIsFresh(e)
  }

  ghost predicate DataTrue(p: BcUdpPacket, rcv: Endpoint, log: seq<Bytes>) {
    p.Data? && p.connectionId == rcv.clientId ==> p.packetId < |log| && p.payload == log[p.packetId]
  }

  /** An ACK on the wire, however old, only names packets the receiver has. */
  ghost predicate AckTrue(p: BcUdpPacket, snd: Endpoint, rcv: Endpoint) {
    p.Ack? && p.connectionId == snd.clientId ==>
      forall k: nat :: Acked(k, p.packetId, p.payload) ==> Held(rcv, k)
  }

  /** The invariant of the direction from A to B. */
  ghost predicate LinkInv(s: System) {
    && s.a.cameraId == s.b.clientId && s.b.cameraId == s.a.clientId
    && SenderOk(s.a, s.logA, s.wroteA)
    && ReceiverOk(s.b, s.logA, s.outB)
    && (forall id :: 0 <= id < |s.logA| ==> id in s.a.sent || Held(s.b, id))
    && (forall p :: p in s.toB ==> DataTrue(p, s.b, s.logA))
    && (forall p :: p in s.toA ==> AckTrue(p, s.a, s.b))
  }

  ghost predicate Inv(s: System) {
    LinkInv(s) && LinkInv(Swap(s))
  }

  // ---------------------------------------------------------------- sender lemmas

  lemma SendOneKeeps(e: Endpoint, log: seq<Bytes>, wrote: Bytes, payload: Bytes)
    requires SenderOk(e, log, wrote)
    requires |log| + 1 < EMPTY_ACK_ID
    ensures SenderOk(SendOne(e, payload), log + [payload], wrote + payload)
    ensures SendOne(e, payload) == e.(sendPacketId := |log| + 1, sent := e.sent[|log| := Data(e.cameraId, |log|, payload)])
  {
    hide Flatten;
    FlattenConcat(log, [payload]);
    assert Flatten([payload]) == payload by { FlattenOne(payload); }
  }

  lemma FlattenOne(chunk: Bytes)
    ensures Flatten([chunk]) == chunk
  {
    assert Flatten([chunk]) == chunk + Flatten([]);
  }

  lemma {:induction false} SendAllKeeps(e: Endpoint, log: seq<Bytes>, wrote: Bytes, frags: seq<Bytes>)
    requires SenderOk(e, log, wrote)
    requires |log| + |frags| < EMPTY_ACK_ID
    ensures var r := SendAll(e, frags);
            && SenderOk(r, log + frags, wrote + Flatten(frags))
            && r == e.(sendPacketId := r.sendPacketId, sent := r.sent)
            && (forall id :: id in e.sent ==> id in r.sent)
            && (forall id :: |log| <= id < |log| + |frags| ==> id in r.sent)
    decreases |frags|
  {
    hide SendOne, SenderOk;
    if frags == [] {
      assert log + frags == log && wrote + Flatten(frags) == wrote;
    } else {
      var e1, log1, rest := SendOne(e, frags[0]), log + [frags[0]], frags[1..];
      SendOneKeeps(e, log, wrote, frags[0]);
      SendAllKeeps(e1, log1, wrote + frags[0], rest);
      assert log1 + rest == log + frags;
      assert wrote + frags[0] + Flatten(rest) == wrote + Flatten(frags);
    }
  }

  /** Each datagram carries the fragment its id stands for. */
  lemma {:induction false} OutgoingTrue(e: Endpoint, log: seq<Bytes>, wrote: Bytes, frags: seq<Bytes>)
    requires SenderOk(e, log, wrote)
    requires |log| + |frags| < EMPTY_ACK_ID
    ensures forall p :: p in Outgoing(e, frags) ==>
              p.Data? && p.connectionId == e.cameraId && p.packetId < |log + frags|
              && p.payload == (log + frags)[p.packetId]
    decreases |frags|
  {
    hide SendOne, Flatten;
    if frags != [] {
      SendOneKeeps(e, log, wrote, frags[0]);
      OutgoingTrue(SendOne(e, frags[0]), log + [frags[0]], wrote + frags[0], frags[1..]);
      assert log + [frags[0]] + frags[1..] == log + frags;
    }
  }

  // ---------------------------------------------------------------- receiver lemmas

  lemma {:induction false} FlushKeeps(e: Endpoint, log: seq<Bytes>, accepted: seq<Bytes>)
    requires ReceiverTracks(e, log, accepted)
    ensures var r := Flush(e);
            && ReceiverTracks(r, log, accepted)
            && (forall k: nat :: Held(r, k) <==> Held(e, k))
    decreases |e.received|
  {
    if e.packetsWant in e.received {
      var w := e.packetsWant;
      var e1 := e.(received := e.received - {w}, packetsWant := w + 1, pendingData := e.pendingData + [e.received[w]]);
      assert accepted + Queue(e1) == log[..w + 1] by {
        assert Queue(e1) == Queue(e) + [log[w]];
        assert log[..w + 1] == log[..w] + [log[w]];
      }
      FlushKeeps(e1, log, accepted);
      assert forall k: nat :: Held(e1, k) <==> Held(e, k);
    }
  }

  lemma OnDataKeeps(e: Endpoint, log: seq<Bytes>, accepted: seq<Bytes>, id: nat, payload: Bytes, latency: nat)
    requires ReceiverOk(e, log, accepted)
    requires id < |log| && payload == log[id]
    ensures var r := OnData(e, id, payload, latency);
            && ReceiverOk(r, log, accepted)
            && Held(r, id)
            && (forall k: nat :: Held(e, k) ==> Held(r, k))
            && r == e.(received := r.received, packetsWant := r.packetsWant, pendingData := r.pendingData,
                       drainScheduled := r.drainScheduled, lastAckPacket := r.lastAckPacket)
  {
    if id >= e.packetsWant {
      var e1 := e.(received := e.received[id := payload]);
      assert ReceiverTracks(e1, log, accepted) by { assert Queue(e1) == Queue(e); }
      FlushKeeps(e1, log, accepted);
      FlushFrame(e1);
      assert forall k: nat :: Held(e, k) ==> Held(e1, k);
      assert Held(e1, id);
      assert FlushReceived(e1).received == Flush(e1).received;
      assert Queue(FlushReceived(e1)) == Queue(Flush(e1));
    }
  }

  lemma OnDrainKeeps(e: Endpoint, log: seq<Bytes>, accepted: seq<Bytes>, n: nat)
    requires ReceiverOk(e, log, accepted)
    requires e.pendingDataOffset + n <= |e.pendingData|
    ensures ReceiverOk(OnDrain(e, n), log, accepted + Queue(e)[..n])
  {
    var r := OnDrain(e, n);
    assert Queue(e) == Queue(e)[..n] + Queue(r);
    assert accepted + Queue(e)[..n] + Queue(r) == accepted + Queue(e);
  }

  /** The ACK a receiver builds names only packets it has. */
  lemma BuiltAckTrue(e: Endpoint, log: seq<Bytes>, accepted: seq<Bytes>, k: nat)
    requires ReceiverTracks(e, log, accepted) && |log| < EMPTY_ACK_ID
    requires var a := BuildAck(e.packetsWant, e.received.Keys); Acked(k, a.packetId, a.payload)
    ensures Held(e, k)
  {
    hide BuildAck, FirstMissing, Highest, ToUint32;
    var a := BuildAck(e.packetsWant, e.received.Keys);
    EmptyAck(e.received.Keys);
    if e.packetsWant > 0 {
      var f := FirstMissing(e.received.Keys, e.packetsWant);
      FirstMissingBound(e, log, accepted);
      AckMeaning(e.packetsWant, e.received.Keys);
      FirstMissingSpec(e.received.Keys, e.packetsWant);
      SmallId(f - 1);
      if k > a.packetId {
        var i :| 0 <= i < |a.payload| && a.payload[i] > 0 && k == ToUint32(a.packetId + 1 + i);
        assert f + i in e.received.Keys;
        SmallId(f + i);
      }
    }
  }

  lemma SmallId(n: int)
    ensures IsUint32(n) ==> ToUint32(n) == n
  {
  }

  lemma EmptyAck(keys: set<nat>)
    ensures BuildAck(0, keys).packetId == EMPTY_ACK_ID
  {
  }

  lemma FirstMissingSpec(keys: set<nat>, from: nat)
    ensures var f := FirstMissing(keys, from);
            f >= from && f !in keys && forall k :: from <= k < f ==> k in keys
  {
  }

  lemma FirstMissingBound(e: Endpoint, log: seq<Bytes>, accepted: seq<Bytes>)
    requires ReceiverTracks(e, log, accepted)
    ensures FirstMissing(e.received.Keys, e.packetsWant) <= |log|
  {
    assert |log| !in e.received;
  }

  // ---------------------------------------------------------------- every step keeps the invariant

  lemma WriteKeeps(s: System, buf: Bytes)
    requires Inv(s) && EnabledAtA(s, Write(buf))
    ensures Inv(StepAtA(s, Write(buf)))
  {
    hide SendAll, Outgoing, Fragments, Flatten, LinkInv;
    WriteKeepsLink(s, buf);
    var frags := Fragments(buf);
    SenderOfLink(s);
    SendAllKeeps(s.a, s.logA, s.wroteA, frags);
    OutgoingTrue(s.a, s.logA, s.wroteA, frags);
    SenderChanged(s, StepAtA(s, Write(buf)));
  }

  lemma SenderOfLink(s: System)
    requires LinkInv(s)
    ensures SenderOk(s.a, s.logA, s.wroteA)
  {
  }

  lemma WriteKeepsLink(s: System, buf: Bytes)
    requires LinkInv(s) && EnabledAtA(s, Write(buf))
    ensures LinkInv(StepAtA(s, Write(buf)))
  {
    hide SendAll, Outgoing, Fragments, Flatten, SenderOk, AckIsFresh;
    var frags := Fragments(buf);
    var r := StepAtA(s, Write(buf));
    SendAllKeeps(s.a, s.logA, s.wroteA, frags);
    OutgoingTrue(s.a, s.logA, s.wroteA, frags);
    FragmentsFaithful(buf);
    assert ReceiverOk(s.b, r.logA, s.outB) by {
      assert |s.logA| <= |r.logA| && r.logA[..|s.logA|] == s.logA;
      assert s.logA[..s.b.packetsWant] == r.logA[..s.b.packetsWant];
    }
    assert forall p :: p in s.toA ==> AckTrue(p, r.a, r.b) by {
      assert forall p :: AckTrue(p, s.a, s.b) ==> AckTrue(p, r.a, s.b);
    }
  }

  /** A step that changes only the sending fields of A leaves the direction from B to A alone. */
  lemma SenderChanged(s: System, r: System)
    requires LinkInv(Swap(s))
    requires r.a == s.a.(sendPacketId := r.a.sendPacketId, sent := r.a.sent)
    requires r.b == s.b && r.toA == s.toA && r.logB == s.logB && r.wroteB == s.wroteB && r.outA == s.outA
    requires forall p :: p in r.toB && p !in s.toB ==> p.Data?
    ensures LinkInv(Swap(r))
  {
    hide SenderOk;
    assert Queue(r.a) == Queue(s.a);
    assert forall k: nat :: Held(s.a, k) <==> Held(r.a, k);
    assert forall p :: AckTrue(p, s.b, s.a) ==> AckTrue(p, s.b, r.a);
  }

  lemma AckTickKeeps(s: System)
    requires Inv(s)
    ensures Inv(StepAtA(s, AckTick))
  {
    var p := s.a.lastAckPacket;
    forall k: nat | Acked(k, p.packetId, p.payload) ensures Held(s.a, k) {
      BuiltAckTrue(s.a, s.logB, s.outA, k);
    }
  }

  lemma ResendTickKeeps(s: System)
    requires Inv(s)
    ensures Inv(StepAtA(s, ResendTick))
  {
  }

  lemma AckDeliveryKeeps(s: System, p: BcUdpPacket, latency: nat)
    requires Inv(s) && p in s.toA && p.Ack?
    ensures Inv(StepAtA(s, Deliver(p, latency)))
  {
    var r := StepAtA(s, Deliver(p, latency));
    if p.connectionId == s.a.clientId {
      assert AckTrue(p, s.a, s.b);
      assert forall k :: k in s.a.sent && !Acked(k, p.packetId, p.payload) ==> k in r.a.sent;
      SenderChanged(s, r);
    }
  }

  lemma DataDeliveryKeeps(s: System, p: BcUdpPacket, latency: nat)
    requires Inv(s) && p in s.toA && p.Data?
    ensures Inv(StepAtA(s, Deliver(p, latency)))
  {
    if p.connectionId == s.a.clientId {
      assert DataTrue(p, s.a, s.logB);
      OnDataKeeps(s.a, s.logB, s.outA, p.packetId, p.payload, latency);
      ReceiverChanged(s, StepAtA(s, Deliver(p, latency)));
    }
  }

  /** A step that changes only the receiving fields of A, and forgets nothing received. */
  lemma ReceiverChanged(s: System, r: System)
    requires Inv(s)
    requires r == s.(a := r.a, outA := r.outA)
    requires r.a == s.a.(received := r.a.received, packetsWant := r.a.packetsWant, pendingData := r.a.pendingData,
                         pendingDataOffset := r.a.pendingDataOffset, drainScheduled := r.a.drainScheduled,
                         lastAckPacket := r.a.lastAckPacket)
    requires ReceiverOk(r.a, s.logB, r.outA)
    requires forall k: nat :: Held(s.a, k) ==> Held(r.a, k)
    ensures Inv(r)
  {
    hide ReceiverOk, Held, Flatten, Acked;
    assert forall p :: AckTrue(p, s.a, s.b) ==> AckTrue(p, r.a, s.b);
    assert forall p :: AckTrue(p, s.b, s.a) ==> AckTrue(p, s.b, r.a);
  }

  lemma DrainKeeps(s: System, n: nat)
    requires Inv(s) && EnabledAtA(s, Drain(n))
    ensures Inv(StepAtA(s, Drain(n)))
  {
    var r := StepAtA(s, Drain(n));
    OnDrainKeeps(s.a, s.logB, s.outA, n);
    ReceiverChanged(s, r);
  }

  lemma StepAtAKeeps(s: System, ev: Event)
    requires Inv(s) && EnabledAtA(s, ev)
    ensures Inv(StepAtA(s, ev))
  {
    match ev
    case Write(buf) => WriteKeeps(s, buf);
    case AckTick => AckTickKeeps(s);
    case ResendTick => ResendTickKeeps(s);
    case Deliver(p, latency) =>
      match p {
        case Discovery(_, _) =>
        case Ack(_, _, _, _, _) => AckDeliveryKeeps(s, p, latency);
        case Data(_, _, _) => DataDeliveryKeeps(s, p, latency);
      }
    case Stray(p) =>
    case Drain(n) => DrainKeeps(s, n);
  }

  lemma StepKeeps(s: System, act: Action)
    requires Inv(s) && Enabled(s, act)
    ensures Inv(Step(s, act))
  {
    if act.atA {
      StepAtAKeeps(s, act.event);
    } else {
      StepAtAKeeps(Swap(s), act.event);
    }
  }

  lemma InitialInv(s: System)
    requires Initial(s)
    ensures Inv(s)
  {
  }

  lemma {:induction false} RunKeeps(s: System, acts: seq<Action>)
    requires Inv(s) && IsRun(s, acts)
    ensures Inv(Exec(s, acts))
    decreases |acts|
  {
    if acts != [] {
      StepKeeps(s, acts[0]);
      RunKeeps(Step(s, acts[0]), acts[1..]);
    }
  }

  // ---------------------------------------------------------------- safety over whole runs

  /** In every reachable state, what the listener accepted followed by what is still queued is the
      sequence of written fragments up to `packetsWant`; the bytes are a prefix of the bytes written. */
  lemma DeliveryIsPrefix(s0: System, acts: seq<Action>)
    requires Initial(s0) && IsRun(s0, acts)
    ensures var s := Exec(s0, acts);
            && s.b.pendingDataOffset <= |s.b.pendingData| && s.b.packetsWant <= |s.logA|
            && s.outB + Queue(s.b) == s.logA[..s.b.packetsWant]
            && Flatten(s.outB + Queue(s.b)) <= s.wroteA
            && Flatten(s.outB) <= s.wroteA
  {
    hide Exec, IsRun, Initial, AckIsFresh, Flatten;
    InitialInv(s0);
    RunKeeps(s0, acts);
    var s := Exec(s0, acts);
    FlattenConcat(s.logA[..s.b.packetsWant], s.logA[s.b.packetsWant..]);
    assert s.logA == s.logA[..s.b.packetsWant] + s.logA[s.b.packetsWant..];
    FlattenConcat(s.outB, Queue(s.b));
  }

  /** The same for the other direction: the argument does not care which side is called A. */
  lemma DeliveryIsPrefixBothWays(s0: System, acts: seq<Action>)
    requires Initial(s0) && IsRun(s0, acts)
    ensures var s := Exec(s0, acts);
            && s.a.pendingDataOffset <= |s.a.pendingData|
            && Flatten(s.outB) <= s.wroteA && Flatten(s.outA) <= s.wroteB
            && Flatten(s.outA + Queue(s.a)) <= s.wroteB
  {
    DeliveryIsPrefix(s0, acts);
    SwapRun(s0, acts);
    DeliveryIsPrefix(Swap(s0), Mirror(acts));
  }

  function Mirror(acts: seq<Action>): seq<Action>
    decreases |acts|
  {
    if acts == [] then [] else [Action(!acts[0].atA, acts[0].event)] + Mirror(acts[1..])
  }

  lemma {:induction false} SwapRun(s: System, acts: seq<Action>)
    requires IsRun(s, acts)
    ensures IsRun(Swap(s), Mirror(acts))
    ensures Exec(Swap(s), Mirror(acts)) == Swap(Exec(s, acts))
    decreases |acts|
  {
    hide EnabledAtA, StepAtA;
    if acts != [] {
      assert Swap(Swap(s)) == s;
      SwapRun(Step(s, acts[0]), acts[1..]);
      assert Mirror(acts)[1..] == Mirror(acts[1..]);
    }
  }

  /** A fragment leaves the resend buffer only when the peer has it, however stale, repeated or
      reordered the ACKs were. An empty resend buffer means everything written has arrived in order. */
  lemma NoPrematureRelease(s0: System, acts: seq<Action>)
    requires Initial(s0) && IsRun(s0, acts)
    ensures var s := Exec(s0, acts);
            && (forall id :: 0 <= id < |s.logA| && id !in s.a.sent ==> Held(s.b, id))
            && s.b.pendingDataOffset <= |s.b.pendingData|
            && (s.a.sent == map[] ==>
                  s.b.packetsWant == |s.logA| && Flatten(s.outB + Queue(s.b)) == s.wroteA)
  {
    InitialInv(s0);
    RunKeeps(s0, acts);
    var s := Exec(s0, acts);
    if s.a.sent == map[] {
      AllHeldMeansAllConsumed(s);
      assert s.logA[..|s.logA|] == s.logA;
    }
  }

  lemma AllHeldMeansAllConsumed(s: System)
    requires Inv(s)
    requires forall id :: 0 <= id < |s.logA| ==> Held(s.b, id)
    ensures s.b.packetsWant == |s.logA| && s.b.received == map[]
  {
    assert !Held(s.b, s.b.packetsWant);
    assert s.b.received.Keys == {};
  }

  /** What the cached ACK of a receiver says. */
  ghost predicate AckDescribes(p: BcUdpPacket, e: Endpoint) {
    && p.Ack? && p.connectionId == e.cameraId
    && (p.groupId == EMPTY_ACK_ID <==> e.packetsWant == 0)
    && (e.packetsWant == 0 ==> p.packetId == EMPTY_ACK_ID && p.payload == [])
    && (e.packetsWant > 0 ==>
          && p.groupId == 0 && p.packetId == e.packetsWant - 1
          && |p.payload| <= MAX_ACK_PAYLOAD_BYTES
          && (|p.payload| > 0 ==> p.payload[0] == 0)
          && (forall i :: 0 <= i < |p.payload| ==> p.payload[i] == if e.packetsWant + i in e.received then 1 else 0)
          && (forall k :: k in e.received && k < e.packetsWant + MAX_ACK_PAYLOAD_BYTES ==>
                k - e.packetsWant < |p.payload|)
          && (e.received == map[] ==> p.payload == []))
  }

  lemma FreshAckDescribes(e: Endpoint, log: seq<Bytes>, accepted: seq<Bytes>)
    requires ReceiverOk(e, log, accepted) && |log| < EMPTY_ACK_ID
    ensures AckDescribes(e.lastAckPacket, e)
  {
    hide BuildAck, FirstMissing, ToUint32;
    var f := FirstMissing(e.received.Keys, e.packetsWant);
    FirstMissingSpec(e.received.Keys, e.packetsWant);
    assert f == e.packetsWant;
    if e.packetsWant > 0 {
      SmallId(f - 1);
      AckMeaning(e.packetsWant, e.received.Keys);
      var a := BuildAck(e.packetsWant, e.received.Keys);
      assert a.packetId == f - 1 && e.lastAckPacket.payload == a.payload;
    } else {
      NothingConsumedAck(e.received.Keys);
    }
  }

  lemma NothingConsumedAck(keys: set<nat>)
    ensures BuildAck(0, keys) == AckBody(EMPTY_ACK_ID, [])
  {
  }

  /** In every reachable state the cached ACK says exactly what the receiver has: nothing consumed is
      the one ACK with group id 0xffffffff, otherwise the id before `packetsWant` and one entry for
      each id from `packetsWant` on, at most 200. */
  lemma CachedAckDescribesReceiver(s0: System, acts: seq<Action>)
    requires Initial(s0) && IsRun(s0, acts)
    ensures var e := Exec(s0, acts).b; AckDescribes(e.lastAckPacket, e)
  {
    hide AckDescribes, Exec, IsRun, Initial, AckIsFresh;
    InitialInv(s0);
    RunKeeps(s0, acts);
    var s := Exec(s0, acts);
    FreshAckDescribes(s.b, s.logA, s.outB);
  }

  // ---------------------------------------------------------------- draining

  predicate WritesAtA(act: Action) { act.atA && act.event.Write? }

  /** Without a write the resend buffer only shrinks. */
  lemma OutstandingNeverRises(s: System, act: Action)
    requires Inv(s) && Enabled(s, act) && !WritesAtA(act)
    ensures Step(s, act).a.sent.Keys <= s.a.sent.Keys
    ensures |Step(s, act).a.sent| <= |s.a.sent|
    ensures Step(s, act).logA == s.logA
  {
    var r := Step(s, act);
    if act.atA {
      if act.event.Deliver? && act.event.p.Data? {
        hide Flush;
        FlushFrame(s.a.(received := s.a.received[act.event.p.packetId := act.event.p.payload]));
      }
    }
    SubsetSize(r.a.sent.Keys, s.a.sent.Keys);
    assert |r.a.sent| == |r.a.sent.Keys| && |s.a.sent| == |s.a.sent.Keys|;
  }

  lemma SubsetSize(x: set<nat>, y: set<nat>)
    requires x <= y
    ensures |x| <= |y|
  {
    assert y == x + (y - x);
  }

  /** No event makes a receiver forget a packet, and datagrams once sent stay deliverable. */
  lemma HeldStaysAtA(s: System, ev: Event)
    requires Inv(s) && EnabledAtA(s, ev)
    ensures var r := StepAtA(s, ev);
            && (forall k: nat :: Held(s.a, k) ==> Held(r.a, k))
            && r.b == s.b && s.toA <= r.toA && s.toB <= r.toB
            && r.a.clientId == s.a.clientId && r.a.cameraId == s.a.cameraId
            && r.logB == s.logB
  {
    hide Fragments, Outgoing, Flatten, FirstMissing, BuildAck, Flush;
    match ev
    case Write(buf) =>
      SendAllKeeps(s.a, s.logA, s.wroteA, Fragments(buf));
    case Deliver(p, latency) =>
      if IsForConnection(p, s.a) && p.Data? {
        assert DataTrue(p, s.a, s.logB);
        OnDataKeeps(s.a, s.logB, s.outA, p.packetId, p.payload, latency);
      }
    case _ =>
  }

  /** What a run without writes at A preserves. */
  ghost predicate Later(s: System, r: System) {
    && r.logA == s.logA
    && r.a.sent.Keys <= s.a.sent.Keys
    && (forall k: nat :: Held(s.b, k) ==> Held(r.b, k))
    && s.toA <= r.toA && s.toB <= r.toB
    && r.a.clientId == s.a.clientId && r.b.clientId == s.b.clientId
  }

  lemma StepIsLater(s: System, act: Action)
    requires Inv(s) && Enabled(s, act) && !WritesAtA(act)
    ensures Later(s, Step(s, act))
  {
    hide Held, EnabledAtA, StepAtA;
    OutstandingNeverRises(s, act);
    HeldStaysAtA(if act.atA then s else Swap(s), act.event);
  }

  lemma {:induction false} RunIsLater(s: System, acts: seq<Action>)
    requires Inv(s) && IsRun(s, acts)
    requires forall act :: act in acts ==> !WritesAtA(act)
    ensures Later(s, Exec(s, acts))
    decreases |acts|
  {
    hide Enabled, Step, Held, Inv, WritesAtA;
    if acts != [] {
      StepKeeps(s, acts[0]);
      StepIsLater(s, acts[0]);
      RunIsLater(Step(s, acts[0]), acts[1..]);
    }
  }

  predicate DeliversAtB(act: Action, p: BcUdpPacket) {
    !act.atA && act.event.Deliver? && act.event.p == p
  }

  lemma DeliveredIsHeld(s: System, act: Action, id: nat)
    requires Inv(s) && Enabled(s, act)
    requires id < |s.logA| && DeliversAtB(act, Data(s.b.clientId, id, s.logA[id]))
    ensures Held(Step(s, act).b, id)
  {
    hide Flush, BuildAck;
    OnDataKeeps(s.b, s.logA, s.outB, id, s.logA[id], act.event.latency);
  }

  /** A fragment delivered anywhere in a run is held at its end. */
  lemma {:induction false} RunDelivers(s: System, acts: seq<Action>, id: nat, i: nat)
    requires Inv(s) && IsRun(s, acts)
    requires forall act :: act in acts ==> !WritesAtA(act)
    requires id < |s.logA| && i < |acts| && DeliversAtB(acts[i], Data(s.b.clientId, id, s.logA[id]))
    ensures Held(Exec(s, acts).b, id)
    decreases |acts|
  {
    hide Enabled, Step, Held, Inv, WritesAtA;
    var r := Step(s, acts[0]);
    StepKeeps(s, acts[0]);
    StepIsLater(s, acts[0]);
    if i == 0 {
      DeliveredIsHeld(s, acts[0], id);
      RunIsLater(r, acts[1..]);
    } else {
      RunDelivers(r, acts[1..], id, i - 1);
    }
  }

  /** An ACK built when everything written is held releases the whole resend buffer, also when it
      arrives much later. */
  lemma FullAckReleasesAll(s1: System, s3: System, latency: nat)
    requires Inv(s1) && Inv(s3) && Later(s1, s3)
    requires forall id :: 0 <= id < |s1.logA| ==> Held(s1.b, id)
    ensures OnPacket(s3.a, s1.b.lastAckPacket, latency).sent == map[]
  {
    hide AckIsFresh, Flatten;
    AllHeldMeansAllConsumed(s1);
    FreshAckDescribes(s1.b, s1.logA, s1.outB);
    var p, n := s1.b.lastAckPacket, |s1.logA|;
    assert n > 0 ==> forall k :: k in s3.a.sent ==> Acked(k, p.packetId, p.payload);
    assert OnPacket(s3.a, p, latency).sent.Keys == {};
  }

  /** One round without loss. Take any run without writes at A in which B is delivered, in any order
      and among anything else, every fragment A had outstanding at its start; let B send its cached
      ACK then; let anything but writes at A happen; when that ACK arrives, nothing is outstanding. */
  lemma LossFreeRoundDrains(s0: System, deliveries: seq<Action>, between: seq<Action>, latency: nat)
    requires Inv(s0) && IsRun(s0, deliveries)
    requires IsRun(Step(Exec(s0, deliveries), Action(false, AckTick)), between)
    requires forall act :: act in deliveries || act in between ==> !WritesAtA(act)
    requires forall k :: k in s0.a.sent ==>
               exists i :: 0 <= i < |deliveries| && DeliversAtB(deliveries[i], s0.a.sent[k])
    ensures var s1 := Exec(s0, deliveries);
            var s3 := Exec(Step(s1, Action(false, AckTick)), between);
            var arrival := Action(true, Deliver(s1.b.lastAckPacket, latency));
            Enabled(s3, arrival) && Step(s3, arrival).a.sent == map[]
  {
    hide Held, Later, DeliversAtB, Inv, IsRun, Exec;
    var s1 := Exec(s0, deliveries);
    var tick := Action(false, AckTick);
    var s2 := Step(s1, tick);
    var s3 := Exec(s2, between);
    RunKeeps(s0, deliveries);
    RunIsLater(s0, deliveries);
    StepKeeps(s1, tick);
    StepIsLater(s1, tick);
    RunKeeps(s2, between);
    RunIsLater(s2, between);
    LaterTransitive(s1, s2, s3);
    AllHeldAfter(s0, deliveries);
    FullAckReleasesAll(s1, s3, latency);
    assert s1.b.lastAckPacket in s3.toA by { LaterKeepsPackets(s2, s3); }
  }

  lemma LaterTransitive(s: System, r: System, t: System)
    requires Later(s, r) && Later(r, t)
    ensures Later(s, t)
  {
  }

  lemma LaterKeepsPackets(s: System, r: System)
    requires Later(s, r)
    ensures s.toA <= r.toA
  {
  }

  lemma AllHeldAfter(s0: System, deliveries: seq<Action>)
    requires Inv(s0) && IsRun(s0, deliveries)
    requires forall act :: act in deliveries ==> !WritesAtA(act)
    requires forall k :: k in s0.a.sent ==>
               exists i :: 0 <= i < |deliveries| && DeliversAtB(deliveries[i], s0.a.sent[k])
    ensures Exec(s0, deliveries).logA == s0.logA
    ensures forall id :: 0 <= id < |s0.logA| ==> Held(Exec(s0, deliveries).b, id)
  {
    hide DeliversAtB, IsRun, Exec, Held;
    RunIsLater(s0, deliveries);
    forall id | 0 <= id < |s0.logA| ensures Held(Exec(s0, deliveries).b, id) {
      if id in s0.a.sent {
        var i :| 0 <= i < |deliveries| && DeliversAtB(deliveries[i], s0.a.sent[id]);
        RunDelivers(s0, deliveries, id, i);
      }
    }
  }

  // ---------------------------------------------------------------- what one acknowledgement releases

  /** The ids an ACK built now reports: everything consumed and the buffered ids of the next 200. */
  ghost predicate Reported(e: Endpoint, k: nat) {
    e.packetsWant > 0 && (k < e.packetsWant || (k in e.received && k < e.packetsWant + 200))
  }

  /** The cached ACK, whenever it arrives, releases exactly the reported ids. */
  lemma AckReleasesReported(e: Endpoint, rcv: Endpoint, log: seq<Bytes>, accepted: seq<Bytes>, latency: nat, k: nat)
    requires ReceiverOk(rcv, log, accepted) && |log| < EMPTY_ACK_ID && rcv.cameraId == e.clientId
    requires k < |log|
    ensures k in OnPacket(e, rcv.lastAckPacket, latency).sent <==> k in e.sent && !Reported(rcv, k)
  {
    hide AckIsFresh, OnAck;
    FreshAckDescribes(rcv, log, accepted);
    var p := rcv.lastAckPacket;
    AckReleases(e, p.packetId, p.payload, k);
    if rcv.packetsWant > 0 {
      forall i | 0 <= i < |p.payload| && p.payload[i] > 0
        ensures (p.packetId + 1 + i) % 0x1_0000_0000 == rcv.packetsWant + i
      {
        assert rcv.packetsWant + i in rcv.received;
      }
      if k in rcv.received && k < rcv.packetsWant + 200 {
        var i := k - rcv.packetsWant;
        assert p.payload[i] == 1;
      }
    }
  }

  lemma ReleasedStaysAtA(s: System, ev: Event, k: nat)
    requires Inv(s) && EnabledAtA(s, ev) && k < |s.logA| && k !in s.a.sent
    ensures var r := StepAtA(s, ev); |s.logA| <= |r.logA| && k !in r.a.sent
  {
    hide Fragments, SendAll, Outgoing, Flush, AckPacket, Acked, AckIsFresh, Flatten;
    match ev
    case Write(buf) =>
      WriteMeaning(s.a, Fragments(buf));
    case Deliver(p, latency) =>
      if p.Data? { FlushFrame(s.a.(received := s.a.received[p.packetId := p.payload])); }
    case _ =>
  }

  /** A released id never comes back, and nothing on the way is lost from the model's network. */
  lemma ReleasedStays(s: System, act: Action, k: nat)
    requires Inv(s) && Enabled(s, act) && k < |s.logA| && k !in s.a.sent
    ensures var r := Step(s, act); |s.logA| <= |r.logA| && k !in r.a.sent
  {
    hide EnabledAtA, StepAtA, Inv;
    if act.atA {
      ReleasedStaysAtA(s, act.event, k);
    } else {
      ReceivingSideSteps(Swap(s), act.event);
    }
  }

  lemma ReceivingSideSteps(s: System, ev: Event)
    requires EnabledAtA(s, ev)
    ensures StepAtA(s, ev).b == s.b && StepAtA(s, ev).logB == s.logB
  {
  }

  lemma {:induction false} ReleasedStaysInRun(s: System, acts: seq<Action>, k: nat)
    requires Inv(s) && IsRun(s, acts) && k < |s.logA| && k !in s.a.sent
    ensures k !in Exec(s, acts).a.sent
    decreases |acts|
  {
    hide Enabled, Step, Inv;
    if acts != [] {
      StepKeeps(s, acts[0]);
      ReleasedStays(s, acts[0], k);
      ReleasedStaysInRun(Step(s, acts[0]), acts[1..], k);
    }
  }

  /** What every run preserves, writes included. */
  ghost predicate Grows(s: System, r: System) {
    s.toA <= r.toA && |s.logA| <= |r.logA| && r.a.clientId == s.a.clientId
  }

  lemma StepGrows(s: System, act: Action)
    requires Inv(s) && Enabled(s, act)
    ensures Grows(s, Step(s, act))
  {
    hide Held, Fragments, SendAll, Outgoing, OnPacket, Inv;
    HeldStaysAtA(if act.atA then s else Swap(s), act.event) by { InvSwaps(s); }
  }

  lemma InvSwaps(s: System)
    requires Inv(s)
    ensures Inv(Swap(s))
  {
    assert Swap(Swap(s)) == s;
  }

  lemma {:induction false} RunGrows(s: System, acts: seq<Action>)
    requires Inv(s) && IsRun(s, acts)
    ensures Grows(s, Exec(s, acts))
    decreases |acts|
  {
    hide Enabled, Step, Inv;
    if acts != [] {
      StepKeeps(s, acts[0]);
      StepGrows(s, acts[0]);
      RunGrows(Step(s, acts[0]), acts[1..]);
    }
  }

  /** Over whole runs: B sends its cached ACK, anything happens, writes included, the ACK arrives at A.
      Of the ids written before, it releases exactly those B reported, and those stay released in
      everything that follows. */
  lemma SelectiveAckReleases(s0: System, before: seq<Action>, between: seq<Action>, later: seq<Action>, latency: nat, k: nat)
    requires Initial(s0) && IsRun(s0, before)
    requires IsRun(Step(Exec(s0, before), Action(false, AckTick)), between)
    requires k < |Exec(s0, before).logA|
    ensures var s1 := Exec(s0, before);
            var s3 := Exec(Step(s1, Action(false, AckTick)), between);
            var arrival := Action(true, Deliver(s1.b.lastAckPacket, latency));
            && Enabled(s3, arrival)
            && (k in Step(s3, arrival).a.sent <==> k in s3.a.sent && !Reported(s1.b, k))
            && (Reported(s1.b, k) && IsRun(Step(s3, arrival), later) ==> k !in Exec(Step(s3, arrival), later).a.sent)
  {
    hide Inv, IsRun, Exec, Initial, Reported, OnPacket;
    InitialInv(s0);
    RunKeeps(s0, before);
    var s1 := Exec(s0, before);
    var tick := Action(false, AckTick);
    var s2 := Step(s1, tick);
    StepKeeps(s1, tick);
    StepGrows(s1, tick);
    RunKeeps(s2, between);
    RunGrows(s2, between);
    var s3 := Exec(s2, between);
    var arrival := Action(true, Deliver(s1.b.lastAckPacket, latency));
    assert Enabled(s3, arrival);
    assert ReceiverOk(s1.b, s1.logA, s1.outB) && |s1.logA| < EMPTY_ACK_ID && s1.b.cameraId == s1.a.clientId by { LinkFacts(s1); }
    AckReleasesReported(s3.a, s1.b, s1.logA, s1.outB, latency, k);
    var s4 := Step(s3, arrival);
    assert s4 == s3.(a := OnPacket(s3.a, s1.b.lastAckPacket, latency));
    StepKeeps(s3, arrival);
    if Reported(s1.b, k) && IsRun(s4, later) {
      ReleasedStaysInRun(s4, later, k);
    }
  }

  lemma LinkFacts(s: System)
    requires Inv(s)
    ensures ReceiverOk(s.b, s.logA, s.outB) && |s.logA| < EMPTY_ACK_ID && s.b.cameraId == s.a.clientId
  {
  }

  // ---------------------------------------------------------------- such a round can always happen

  function DeliverAll(order: seq<BcUdpPacket>): (acts: seq<Action>)
    ensures |acts| == |order|
    ensures forall i :: 0 <= i < |acts| ==> DeliversAtB(acts[i], order[i]) && !WritesAtA(acts[i])
  {
    seq(|order|, i requires 0 <= i < |order| => Action(false, Deliver(order[i], 0)))
  }

  lemma {:induction false} DeliverAllIsRun(s: System, order: seq<BcUdpPacket>)
    requires Inv(s) && forall p :: p in order ==> p in s.toB
    ensures IsRun(s, DeliverAll(order))
    decreases |order|
  {
    hide Inv;
    if order != [] {
      var act := DeliverAll(order)[0];
      StepKeeps(s, act);
      DeliverAllIsRun(Step(s, act), order[1..]);
      assert DeliverAll(order)[1..] == DeliverAll(order[1..]);
    }
  }

  lemma AfterResend(s: System, order: seq<BcUdpPacket>)
    requires Inv(s) && (set p | p in order) == s.a.sent.Values
    ensures var r := Step(s, Action(true, ResendTick));
            && Inv(r) && r.a.sent == s.a.sent
            && (forall p :: p in order ==> p in r.toB)
            && (forall k :: k in r.a.sent ==> r.a.sent[k] in order)
  {
    hide Inv;
    StepKeeps(s, Action(true, ResendTick));
    forall p | p in order ensures p in s.a.sent.Values { assert p in (set q | q in order); }
    forall k | k in s.a.sent ensures s.a.sent[k] in order {
      assert s.a.sent[k] in s.a.sent.Values;
      assert s.a.sent[k] in (set q | q in order);
    }
  }

  lemma EachIsDelivered(order: seq<BcUdpPacket>, p: BcUdpPacket)
    requires p in order
    ensures exists i :: 0 <= i < |DeliverAll(order)| && DeliversAtB(DeliverAll(order)[i], p)
  {
    var i :| 0 <= i < |order| && order[i] == p;
    assert DeliversAtB(DeliverAll(order)[i], p);
  }

  /** From any state that satisfies the invariant: a resend tick, delivery of every outstanding
      fragment in any order, one ACK. That is a run, and it leaves the resend buffer empty. */
  lemma OneRoundDrains(s: System, order: seq<BcUdpPacket>, latency: nat)
    requires Inv(s) && (set p | p in order) == s.a.sent.Values
    ensures var r := Step(s, Action(true, ResendTick));
            && IsRun(r, DeliverAll(order))
            && var s1 := Exec(r, DeliverAll(order));
            && var s2 := Step(s1, Action(false, AckTick));
            && var arrival := Action(true, Deliver(s1.b.lastAckPacket, latency));
            && Enabled(s2, arrival)
            && Step(s2, arrival).a.sent == map[]
  {
    hide Inv, DeliversAtB, DeliverAll, Held;
    var r := Step(s, Action(true, ResendTick));
    AfterResend(s, order);
    DeliverAllIsRun(r, order);
    forall k | k in r.a.sent
      ensures exists i :: 0 <= i < |DeliverAll(order)| && DeliversAtB(DeliverAll(order)[i], r.a.sent[k])
    {
      EachIsDelivered(order, r.a.sent[k]);
    }
    NoWritesInDeliverAll(order);
    LossFreeRoundDrains(r, DeliverAll(order), [], latency);
  }

  lemma NoWritesInDeliverAll(order: seq<BcUdpPacket>)
    ensures forall act :: act in DeliverAll(order) ==> !WritesAtA(act)
  {
  }

  /** The invariant covers every reachable state, so the round drains any of them. */
  lemma ReachableRoundDrains(s0: System, acts: seq<Action>, order: seq<BcUdpPacket>, latency: nat)
    requires Initial(s0) && IsRun(s0, acts)
    requires (set p | p in order) == Exec(s0, acts).a.sent.Values
    ensures var r := Step(Exec(s0, acts), Action(true, ResendTick));
            && IsRun(r, DeliverAll(order))
            && var s1 := Exec(r, DeliverAll(order));
            && var s2 := Step(s1, Action(false, AckTick));
            && var arrival := Action(true, Deliver(s1.b.lastAckPacket, latency));
            && Enabled(s2, arrival)
            && Step(s2, arrival).a.sent == map[]
  {
    hide Inv, Initial, IsRun, Exec;
    InitialInv(s0);
    RunKeeps(s0, acts);
    OneRoundDrains(Exec(s0, acts), order, latency);
  }
}
