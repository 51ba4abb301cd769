/** The deferred drain: when it is scheduled, and what a listener that throws leaves behind. */
module BcUdpDrain {
  import opened ByteStrings
  import opened Packets
  import opened BcUdpEndpoint
  import opened BcUdpProtocol

  /** Queued chunks have a drain scheduled for them. */
  predicate WillDrain(e: Endpoint)
    requires e.pendingDataOffset <= |e.pendingData|
  {
    Queue(e) != [] ==> e.drainScheduled
  }

  /** The data datagrams that get past the duplicate test. */
  predicate NewData(e: Endpoint, ev: Event) {
    ev.Deliver? && ev.p.Data? && ev.p.connectionId == e.clientId && ev.p.packetId >= e.packetsWant
  }

  /** No listener at B throws in the run: each drain there empties the queue. */
  ghost predicate ListenerAccepts(s: System, acts: seq<Action>)
    requires IsRun(s, acts)
    decreases |acts|
  {
    acts != [] ==>
      && (!acts[0].atA && acts[0].event.Drain? ==> acts[0].event.accepts == |s.b.pendingData| - s.b.pendingDataOffset)
      && ListenerAccepts(Step(s, acts[0]), acts[1..])
  }

  /** New data arrives at B in the run. */
  ghost predicate NewDataArrives(s: System, acts: seq<Action>)
    requires IsRun(s, acts)
    decreases |acts|
  {
    acts != [] && ((!acts[0].atA && NewData(s.b, acts[0].event)) || NewDataArrives(Step(s, acts[0]), acts[1..]))
  }

  /** The event is a drain in which the listener throws before the queue ends. */
  predicate Throws(e: Endpoint, ev: Event) {
    ev.Drain? && ev.accepts < |e.pendingData| - e.pendingDataOffset
  }

  /** Some drain at B throws, and no new data arrives at B after it. */
  ghost predicate ThrowsLast(s: System, acts: seq<Action>)
    requires IsRun(s, acts)
    decreases |acts|
  {
    && acts != []
    && (|| (!acts[0].atA && Throws(s.b, acts[0].event) && !NewDataArrives(Step(s, acts[0]), acts[1..]))
        || ThrowsLast(Step(s, acts[0]), acts[1..]))
  }

  /** Exactly the arrival of new data schedules a drain, and only a drain consumes the schedule. */
  lemma ScheduledIff(s: System, ev: Event)
    requires Inv(s) && EnabledAtA(s, ev)
    ensures var r := StepAtA(s, ev).a;
            && r.pendingDataOffset <= |r.pendingData|
            && (NewData(s.a, ev) ==> WillDrain(r) && Queue(s.a) <= Queue(r))
            && (!NewData(s.a, ev) && !ev.Drain? ==> r.drainScheduled == s.a.drainScheduled && Queue(r) == Queue(s.a))
            && (ev.Drain? ==> !r.drainScheduled && Queue(s.a)[..ev.accepts] + Queue(r) == Queue(s.a))
  {
    hide SendAll, Outgoing, Fragments, Flush, AckPacket, Acked, AckIsFresh, Flatten;
    match ev
    case Write(buf) => SendAllFrame(s.a, Fragments(buf));
    case Deliver(p, latency) =>
      if p.Data? && p.connectionId == s.a.clientId {
        assert DataTrue(p, s.a, s.logB);
        OnDataKeeps(s.a, s.logB, s.outA, p.packetId, p.payload, latency);
        var e1 := s.a.(received := s.a.received[p.packetId := p.payload]);
        FlushFrame(e1);
        FlushExtends(e1);
      }
    case _ =>
  }

  lemma {:induction false} SendAllFrame(e: Endpoint, frags: seq<Bytes>)
    ensures SendAll(e, frags) == e.(sendPacketId := SendAll(e, frags).sendPacketId, sent := SendAll(e, frags).sent)
    decreases |frags|
  {
    if frags != [] {
      SendAllFrame(SendOne(e, frags[0]), frags[1..]);
    }
  }

  lemma {:induction false} FlushExtends(e: Endpoint)
    ensures e.pendingData <= Flush(e).pendingData
    decreases |e.received|
  {
    if e.packetsWant in e.received {
      FlushExtends(e.(received := e.received - {e.packetsWant}, packetsWant := e.packetsWant + 1,
                      pendingData := e.pendingData + [e.received[e.packetsWant]]));
    }
  }

  /** The other side's events do not touch the queue. */
  lemma OtherSideSteps(s: System, ev: Event)
    requires EnabledAtA(s, ev)
    ensures StepAtA(s, ev).b == s.b && StepAtA(s, ev).outB == s.outB
  {
  }

  /** As long as the listener accepts everything, no queued chunk is ever without a scheduled drain. */
  lemma {:induction false} NothingStranded(s: System, acts: seq<Action>)
    requires Inv(s) && WillDrain(s.b) && IsRun(s, acts) && ListenerAccepts(s, acts)
    ensures Inv(Exec(s, acts)) && WillDrain(Exec(s, acts).b)
    decreases |acts|
  {
    hide Inv, EnabledAtA, StepAtA, NewData;
    if acts != [] {
      var act := acts[0];
      StepKeeps(s, act);
      QueueBound(s);
      if act.atA {
        OtherSideSteps(s, act.event);
      } else {
        InvSwaps(s);
        ScheduledIff(Swap(s), act.event);
      }
      NothingStranded(Step(s, act), acts[1..]);
    }
  }

  lemma QueueBound(s: System)
    requires Inv(s)
    ensures s.a.pendingDataOffset <= |s.a.pendingData| && s.b.pendingDataOffset <= |s.b.pendingData|
  {
  }

  /** For every run: at its end chunks are queued without a drain scheduled for them if and only if
      that was so at the start and no new data arrived, or a listener threw and no new data arrived
      after that. */
  lemma {:induction false} UnscheduledIff(s: System, acts: seq<Action>)
    requires Inv(s) && IsRun(s, acts)
    ensures s.b.pendingDataOffset <= |s.b.pendingData|
    ensures Exec(s, acts).b.pendingDataOffset <= |Exec(s, acts).b.pendingData|
    ensures !WillDrain(Exec(s, acts).b) <==>
            (!WillDrain(s.b) && !NewDataArrives(s, acts)) || ThrowsLast(s, acts)
    decreases |acts|
  {
    hide Inv, EnabledAtA, StepAtA, NewData;
    QueueBound(s);
    if acts != [] {
      var act := acts[0];
      StepKeeps(s, act);
      if act.atA {
        OtherSideSteps(s, act.event);
      } else {
        InvSwaps(s);
        UnscheduledStep(Swap(s), act.event);
      }
      UnscheduledIff(Step(s, act), acts[1..]);
    }
  }

  lemma UnscheduledStep(s: System, ev: Event)
    requires Inv(s) && EnabledAtA(s, ev)
    ensures var r := StepAtA(s, ev).a;
            && s.a.pendingDataOffset <= |s.a.pendingData| && r.pendingDataOffset <= |r.pendingData|
            && (!WillDrain(r) <==> (!WillDrain(s.a) && !NewData(s.a, ev)) || Throws(s.a, ev))
  {
    hide Inv, StepAtA;
    QueueBound(s);
    ScheduledIff(s, ev);
    if ev.Drain? {
      var r := StepAtA(s, ev).a;
      assert |Queue(s.a)[..ev.accepts] + Queue(r)| == |Queue(s.a)|;
    }
  }

  /** The listener can still get every written fragment without another write at A. */
  ghost predicate CanFinish(s: System) {
    exists more :: NoWritesAtA(more) && IsRun(s, more) && Exec(s, more).outB == s.logA
  }

  ghost predicate NoWritesAtA(acts: seq<Action>) {
    forall act :: act in acts ==> !WritesAtA(act)
  }

  /** In every reachable state in which everything has been acknowledged: the listener can still get
      everything if and only if it is not the case that it threw with no new data after that. Then at
      most one drain is missing, and that drain is enabled. */
  lemma AcknowledgedMeansDelivered(s0: System, acts: seq<Action>)
    requires Initial(s0) && IsRun(s0, acts)
    requires Exec(s0, acts).a.sent == map[]
    ensures var s := Exec(s0, acts);
            && s.b.pendingDataOffset <= |s.b.pendingData|
            && (CanFinish(s) <==> !ThrowsLast(s0, acts))
            && (!ThrowsLast(s0, acts) ==>
                  && (!s.b.drainScheduled ==> s.outB == s.logA && Flatten(s.outB) == s.wroteA)
                  && (s.b.drainScheduled ==>
                        var act := Action(false, Drain(|Queue(s.b)|));
                        && Enabled(s, act) && Step(s, act).outB == s.logA
                        && Flatten(Step(s, act).outB) == s.wroteA))
            && (ThrowsLast(s0, acts) ==> Stranded(s) && s.outB < s.logA)
  {
    hide Inv, IsRun, Exec, Initial, ThrowsLast, Flatten, CanFinish;
    InitialInv(s0);
    NothingQueuedFirst(s0);
    RunKeeps(s0, acts);
    UnscheduledIff(s0, acts);
    NoPrematureRelease(s0, acts);
    DeliveryIsPrefix(s0, acts);
    var s := Exec(s0, acts);
    assert s.logA[..|s.logA|] == s.logA;
    if WillDrain(s.b) {
      OneDrainFinishes(s);
    } else {
      StrandedCannotFinish(s);
    }
  }

  lemma OneDrainFinishes(s: System)
    requires Inv(s) && s.b.pendingDataOffset <= |s.b.pendingData| && WillDrain(s.b)
    requires s.outB + Queue(s.b) == s.logA
    ensures CanFinish(s)
    ensures !s.b.drainScheduled ==> s.outB == s.logA
    ensures s.b.drainScheduled ==>
              var act := Action(false, Drain(|Queue(s.b)|));
              Enabled(s, act) && Step(s, act).outB == s.logA
  {
    if s.b.drainScheduled {
      hide Inv;
      QueueBound(s);
      var act := Action(false, Drain(|Queue(s.b)|));
      assert Queue(s.b)[..|Queue(s.b)|] == Queue(s.b);
      var r := Step(s, act);
      assert [act][1..] == [] && IsRun(r, []) && Exec(r, []) == r;
      RunBack(s, [act], r);
      assert NoWritesAtA([act]) && IsRun(s, [act]) && Exec(s, [act]).outB == s.logA;
    } else {
      assert s.outB + Queue(s.b) == s.outB;
      assert NoWritesAtA([]) && IsRun(s, []) && Exec(s, []).outB == s.logA;
    }
  }

  lemma StrandedCannotFinish(s: System)
    requires Inv(s) && s.b.pendingDataOffset <= |s.b.pendingData| && !WillDrain(s.b)
    requires s.outB + Queue(s.b) == s.logA && s.b.packetsWant == |s.logA|
    ensures !CanFinish(s) && Stranded(s) && s.outB < s.logA
  {
    hide Inv, IsRun, Exec;
    forall more | NoWritesAtA(more) && IsRun(s, more) ensures Exec(s, more).outB != s.logA {
      StrandedForGood(s, more);
    }
  }

  lemma NothingQueuedFirst(s: System)
    requires Initial(s)
    ensures s.b.pendingDataOffset <= |s.b.pendingData| && WillDrain(s.b)
  {
  }

  /** A listener that throws strands the rest of the queue, and the only thing that gets it drained is
      the arrival of a datagram that has not been consumed yet: no tick, ACK, duplicate or write does. */
  lemma StrandedUntilNewData(s: System, act: Action)
    requires Inv(s) && Enabled(s, act)
    requires s.b.pendingDataOffset < |s.b.pendingData| && !s.b.drainScheduled
    ensures var r := Step(s, act);
            && (r.b.drainScheduled <==> !act.atA && NewData(s.b, act.event))
            && r.outB == s.outB
            && r.b.pendingDataOffset <= |r.b.pendingData| && Queue(s.b) <= Queue(r.b)
            && (!r.b.drainScheduled ==> Queue(r.b) == Queue(s.b))
  {
    hide Inv;
    if act.atA {
      OtherSideSteps(s, act.event);
    } else {
      InvSwaps(s);
      ScheduledIff(Swap(s), act.event);
    }
  }

  /** Everything written has been consumed, but chunks are queued without a scheduled drain. */
  ghost predicate Stranded(s: System) {
    s.b.packetsWant == |s.logA| && s.b.pendingDataOffset < |s.b.pendingData| && !s.b.drainScheduled
  }

  lemma NothingNewToDeliver(s: System, ev: Event)
    requires Inv(s) && s.b.packetsWant == |s.logA| && EnabledAtA(Swap(s), ev)
    ensures !NewData(s.b, ev)
  {
    if ev.Deliver? && ev.p.Data? && ev.p.connectionId == s.b.clientId {
      OnlyWrittenIds(s, ev.p);
    }
  }

  lemma OnlyWrittenIds(s: System, p: BcUdpPacket)
    requires Inv(s) && p in s.toB && p.Data? && p.connectionId == s.b.clientId
    ensures p.packetId < |s.logA|
  {
    assert DataTrue(p, s.b, s.logA);
  }

  /** Until A writes again nothing changes for a stranded queue, whatever else happens for however long. */
  lemma {:induction false} StrandedForGood(s: System, acts: seq<Action>)
    requires Inv(s) && Stranded(s) && IsRun(s, acts)
    requires forall act :: act in acts ==> !WritesAtA(act)
    ensures var r := Exec(s, acts);
            && Stranded(r) && r.outB == s.outB && r.b.pendingDataOffset <= |r.b.pendingData|
            && Queue(r.b) == Queue(s.b)
    decreases |acts|
  {
    hide Inv, EnabledAtA, StepAtA, NewData, WritesAtA;
    if acts != [] {
      var act, r := acts[0], Step(s, acts[0]);
      StepKeeps(s, act);
      StrandedUntilNewData(s, act);
      OutstandingNeverRises(s, act);
      if act.atA {
        OtherSideSteps(s, act.event);
      } else {
        NothingNewToDeliver(s, act.event);
        ConsumedStays(s, act);
      }
      StrandedForGood(r, acts[1..]);
    }
  }

  lemma ConsumedStays(s: System, act: Action)
    requires Inv(s) && Enabled(s, act) && !act.atA && s.b.packetsWant == |s.logA|
    ensures Step(s, act).b.packetsWant == |s.logA|
  {
    hide EnabledAtA, StepAtA;
    StepKeeps(s, act);
    HeldStaysAtA(Swap(s), act.event);
    AllHeldMeansAllConsumed(Step(s, act));
  }

  /** If the listener throws when every written byte has been acknowledged, the chunk it threw at and
      those behind it stay undelivered through every run in which A writes nothing more. */
  lemma ThrowStrands(s: System, n: nat, acts: seq<Action>)
    requires Inv(s) && s.a.sent == map[] && Enabled(s, Action(false, Drain(n))) && n < |Queue(s.b)|
    requires IsRun(Step(s, Action(false, Drain(n))), acts) && forall act :: act in acts ==> !WritesAtA(act)
    ensures Exec(Step(s, Action(false, Drain(n))), acts).outB == s.outB + Queue(s.b)[..n]
    ensures Flatten(s.outB + Queue(s.b)) == s.wroteA
  {
    hide Flatten;
    var act0 := Action(false, Drain(n));
    var r := Step(s, act0);
    StepKeeps(s, act0);
    AllHeldMeansAllConsumed(s);
    assert s.logA[..|s.logA|] == s.logA;
    StrandedForGood(r, acts);
  }

  // ---------------------------------------------------------------- such a run exists

  /** An empty endpoint after the handshake. */
  ghost function Opened(clientId: int, cameraId: int): Endpoint {
    Endpoint(clientId, cameraId, 0, map[], 0, map[], [], 0, false, AckPacket(cameraId, 0, {}, 0))
  }

  ghost function Connected(): System {
    System(Opened(1, 2), Opened(2, 1), {}, {}, [], [], [], [], [], [])
  }

  /** A writes one byte, B gets it and acknowledges it, A gets the ACK, B's listener throws. */
  ghost function ThrowingRun(): seq<Action> {
    [Action(true, Write([1])), Action(false, Deliver(Data(2, 0, [1]), 0)), Action(false, AckTick),
     Action(true, Deliver(Ack(1, 0, 0, 0, []), 0)), Action(false, Drain(0))]
  }

  /** From a fresh connection: every byte acknowledged, nothing outstanding, nothing delivered, and no
      continuation without a write at A that delivers it. */
  lemma ThrowStrandsFromTheStart()
    ensures Initial(Connected()) && IsRun(Connected(), ThrowingRun())
    ensures var s := Exec(Connected(), ThrowingRun());
            s.a.sent == map[] && Stranded(s) && s.outB == [] && s.wroteA == [1] && !CanFinish(s)
  {
    hide CanFinish, Inv, IsRun, Exec, ThrowingRun;
    var s0, acts := Connected(), ThrowingRun();
    InitialConnected();
    ThrowingRunEnds();
    InitialInv(s0);
    RunKeeps(s0, acts);
    StrandedCannotFinish(Exec(s0, acts));
  }

  lemma InitialConnected()
    ensures Initial(Connected())
  {
    hide FirstMissing;
  }

  lemma ThrowingRunEnds()
    ensures IsRun(Connected(), ThrowingRun())
    ensures var s := Exec(Connected(), ThrowingRun());
            && s.a.sent == map[] && s.outB == [] && s.wroteA == [1] && s.logA == [[1]]
            && s.b.packetsWant == 1 && s.b.pendingData == [[1]] && s.b.pendingDataOffset == 0 && !s.b.drainScheduled
  {
    hide Fragments, SendAll, Outgoing, Flush, AckPacket, Acked;
    var s0 := Connected();
    var acts := ThrowingRun();
    var s1 := AfterWrite();
    FirstWrite();
    FirstDelivery();
    var s2 := Step(s1, acts[1]);
    var s3 := Step(s2, acts[2]);
    FirstAckReleases(s3);
    var s4 := Step(s3, acts[3]);
    assert Enabled(s4, acts[4]);
    var s5 := Step(s4, acts[4]);
    assert IsRun(s5, acts[5..]) && Exec(s5, acts[5..]) == s5;
    RunBack(s4, acts[4..], s5);
    RunBack(s3, acts[3..], s5);
    RunBack(s2, acts[2..], s5);
    RunBack(s1, acts[1..], s5);
    RunBack(s0, acts, s5);
  }

  ghost function AfterWrite(): System {
    var p, s := Data(2, 0, [1]), Connected();
    s.(a := s.a.(sendPacketId := 1, sent := map[0 := p]), toB := {p}, logA := [[1]], wroteA := [1])
  }

  lemma FirstWrite()
    ensures Enabled(Connected(), ThrowingRun()[0]) && Step(Connected(), ThrowingRun()[0]) == AfterWrite()
  {
    var s := Connected();
    assert Fragments([1]) == [[1]];
    assert [[1 as bv8]][1..] == [];
    var e := SendOne(s.a, [1]);
    assert SendAll(s.a, [[1]]) == SendAll(e, []) == e;
    assert Outgoing(s.a, [[1]]) == [Data(2, 0, [1])] + Outgoing(e, []);
  }

  lemma FirstDelivery()
    ensures var s, act := AfterWrite(), ThrowingRun()[1];
            && Enabled(s, act)
            && var r := Step(s, act);
            && r == s.(b := s.b.(packetsWant := 1, pendingData := [[1]], drainScheduled := true,
                                 lastAckPacket := Ack(1, 0, 0, 0, [])))
  {
    var s := AfterWrite();
    var e := s.b.(received := s.b.received[0 := [1]]);
    var f := e.(received := map[], packetsWant := 1, pendingData := [[1]]);
    assert e.received - {0} == map[];
    assert Flush(e) == Flush(f) == f;
    var r := f.(drainScheduled := true);
    assert FlushReceived(e) == r;
    assert AckPacket(1, 1, r.received.Keys, 0) == Ack(1, 0, 0, 0, []) by { FirstAck(r.received.Keys); }
  }

  lemma FirstAck(keys: set<nat>)
    requires keys == {}
    ensures BuildAck(1, keys) == AckBody(0, [])
  {
  }

  lemma FirstAckReleases(s: System)
    requires s.a == AfterWrite().a && Ack(1, 0, 0, 0, []) in s.toA
    ensures var act := ThrowingRun()[3];
            Enabled(s, act) && Step(s, act) == s.(a := s.a.(sent := map[]))
  {
    assert Acked(0, 0, []);
  }

  lemma RunBack(s: System, acts: seq<Action>, last: System)
    requires acts != [] && Enabled(s, acts[0])
    requires IsRun(Step(s, acts[0]), acts[1..]) && Exec(Step(s, acts[0]), acts[1..]) == last
    ensures IsRun(s, acts) && Exec(s, acts) == last
  {
  }
}
