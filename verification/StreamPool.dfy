/** The shared stream pool of `app/src/stream-pool.ts`: at most one stream per camera and profile,
    created once for concurrent callers, torn down when idle, ended or released. */
module StreamPool {

  datatype Key = Key(cameraId: string, profile: string)

  /** Identity of a creation and of the stream object it yields. */
  type Id = nat

  type ConsumerId = string

  /** A stream object. `idleTimer` is the field, `timerArmed` whether a timeout is really scheduled,
      `closes` how often its server has been closed. */
  datatype Stream = Stream(key: Key, consumers: set<ConsumerId>, idleTimer: bool, timerArmed: bool, closes: nat)

  /** `building` are the creations still running, `settling` those that finished but whose caller has
      not yet removed them from `creating`. `streams` holds every object ever built. */
  datatype Pool = Pool(
    pool: map<Key, Id>,
    creating: map<Key, Id>,
    building: map<Id, Key>,
    settling: map<Id, Key>,
    streams: map<Id, Stream>,
    nextId: Id)

  const EMPTY_POOL := Pool(map[], map[], map[], map[], map[], 0)

  datatype Event =
    | Acquire(key: Key)
    | CreationReady(id: Id)
    | CreationFails(id: Id)
    | CallerResumes(id: Id)
    | AddConsumer(id: Id, consumer: ConsumerId)
    | Release(key: Key, consumer: ConsumerId)
    | TimerFires(id: Id)
    | StreamEnds(id: Id)
    | ReleaseCamera(cameraId: string)

  /** Creations and objects an event names exist; a timer fires only if it is scheduled. */
  predicate Enabled(s: Pool, ev: Event) {
    match ev
    case Acquire(_) => true
    case CreationReady(id) => id in s.building
    case CreationFails(id) => id in s.building
    case CallerResumes(id) => id in s.settling
    case AddConsumer(id, _) => id in s.streams
    case Release(_, _) => true
    case TimerFires(id) => id in s.streams && s.streams[id].timerArmed
    case StreamEnds(id) => id in s.streams
    case ReleaseCamera(_) => true
  }

  function WithoutTimer(st: Stream): Stream { st.(idleTimer := false, timerArmed := false) }

  function TornDown(st: Stream): Stream {
    WithoutTimer(st).(consumers := {}, closes := st.closes + 1)
  }

  /** `teardownStream(key)`: whatever stream is pooled under the key leaves the pool and is closed. */
  function Teardown(s: Pool, key: Key): Pool
    requires key in s.pool ==> s.pool[key] in s.streams
  {
    if key !in s.pool then s
    else s.(pool := s.pool - {key}, streams := s.streams[s.pool[key] := TornDown(s.streams[s.pool[key]])])
  }

  ghost predicate Consistent(s: Pool) {
    forall key :: key in s.pool ==> s.pool[key] in s.streams
  }

  function AcquireStep(s: Pool, key: Key): Pool
    requires key in s.pool ==> s.pool[key] in s.streams
  {
    if key in s.pool then
      var id := s.pool[key];
      s.(streams := s.streams[id := WithoutTimer(s.streams[id])])
    else if key in s.creating then s
    else s.(creating := s.creating[key := s.nextId], building := s.building[s.nextId := key], nextId := s.nextId + 1)
  }

  function ReleaseStep(s: Pool, key: Key, consumer: ConsumerId): Pool
    requires key in s.pool ==> s.pool[key] in s.streams
  {
    if key !in s.pool then s
    else
      var id := s.pool[key];
      var st := s.streams[id].(consumers := s.streams[id].consumers - {consumer});
      var st' := if st.consumers == {} && !st.idleTimer then st.(idleTimer := true, timerArmed := true) else st;
      s.(streams := s.streams[id := st'])
  }

  /** Every pooled stream of a camera is torn down. */
  function ReleaseCameraStep(s: Pool, cameraId: string): Pool {
    s.(pool := map k | k in s.pool && k.cameraId != cameraId :: s.pool[k],
       streams := map id | id in s.streams ::
         if Pooled(s, id) && s.streams[id].key.cameraId == cameraId then TornDown(s.streams[id]) else s.streams[id])
  }

  predicate Pooled(s: Pool, id: Id) {
    id in s.streams && s.streams[id].key in s.pool && s.pool[s.streams[id].key] == id
  }

  ghost function Step(s: Pool, ev: Event): Pool
    requires Consistent(s) && Enabled(s, ev)
  {
    match ev
    case Acquire(key) => AcquireStep(s, key)
    case CreationReady(id) =>
      s.(streams := s.streams[id := Stream(s.building[id], {}, false, false, 0)],
         pool := s.pool[s.building[id] := id],
         building := s.building - {id},
         settling := s.settling[id := s.building[id]])
    case CreationFails(id) => s.(building := s.building - {id}, settling := s.settling[id := s.building[id]])
    case CallerResumes(id) => s.(creating := s.creating - {s.settling[id]}, settling := s.settling - {id})
    case AddConsumer(id, c) =>
      s.(streams := s.streams[id := WithoutTimer(s.streams[id]).(consumers := s.streams[id].consumers + {c})])
    case Release(key, c) => ReleaseStep(s, key, c)
    case TimerFires(id) =>
      var s' := s.(streams := s.streams[id := s.streams[id].(timerArmed := false)]);
      if s.streams[id].consumers == {} then Teardown(s', s.streams[id].key) else s'
    case StreamEnds(id) => Teardown(s, s.streams[id].key)
    case ReleaseCamera(cameraId) => ReleaseCameraStep(s, cameraId)
  }

  // ---------------------------------------------------------------- the invariant

  /** A creation that is running, or a built stream that has not been closed. */
  predicate Live(s: Pool, id: Id) {
    id in s.building || (id in s.streams && s.streams[id].closes == 0)
  }

  function KeyOf(s: Pool, id: Id): Key
    requires Live(s, id)
  {
    if id in s.building then s.building[id] else s.streams[id].key
  }

  /** Creations are registered under their key until their caller resumes, and run for keys without a
      pooled stream. */
  ghost predicate CreationsOk(s: Pool) {
    && (forall id :: id in s.building ==>
          && id < s.nextId && id !in s.streams && id !in s.settling
          && s.building[id] in s.creating && s.creating[s.building[id]] == id && s.building[id] !in s.pool)
    && (forall id :: id in s.settling ==>
          id < s.nextId && s.settling[id] in s.creating && s.creating[s.settling[id]] == id)
  }

  /** Built streams are pooled under their own key exactly while unclosed, and otherwise closed once. */
  ghost predicate StreamsOk(s: Pool) {
    && (forall key :: key in s.pool ==> s.pool[key] in s.streams && s.streams[s.pool[key]].key == key)
    && (forall id :: id in s.streams ==>
          id < s.nextId && StreamOk(s, id) && s.streams[id].closes == if Pooled(s, id) then 0 else 1)
  }

  ghost predicate Inv(s: Pool) {
    CreationsOk(s) && StreamsOk(s)
  }

  /** A timer is scheduled exactly when the field says so, and then the stream is pooled and idle. */
  predicate StreamOk(s: Pool, id: Id)
    requires id in s.streams
  {
    var st := s.streams[id];
    (st.idleTimer <==> st.timerArmed) && (st.timerArmed ==> Pooled(s, id) && st.consumers == {})
  }

  lemma InvConsistent(s: Pool)
    requires Inv(s)
    ensures Consistent(s)
  {
  }

  lemma TeardownKeeps(s: Pool, key: Key)
    requires Inv(s)
    ensures Inv(Teardown(s, key))
  {
    var r := Teardown(s, key);
    if key in s.pool {
      var gone := s.pool[key];
      assert forall id :: id in s.streams && id != gone ==> (Pooled(s, id) <==> Pooled(r, id));
    }
  }

  /** Changing consumers and timer of one stream object. */
  lemma StreamChanged(s: Pool, id: Id, st: Stream)
    requires Inv(s) && id in s.streams
    requires st.key == s.streams[id].key && st.closes == s.streams[id].closes
    requires st.idleTimer <==> st.timerArmed
    requires st.timerArmed ==> Pooled(s, id) && st.consumers == {}
    ensures Inv(s.(streams := s.streams[id := st]))
  {
    var r := s.(streams := s.streams[id := st]);
    assert CreationsOk(r);
    assert forall j :: j in s.streams ==> (Pooled(s, j) <==> Pooled(r, j));
  }

  lemma AcquireKeeps(s: Pool, key: Key)
    requires Inv(s)
    ensures Inv(AcquireStep(s, key))
  {
    if key in s.pool {
      StreamChanged(s, s.pool[key], WithoutTimer(s.streams[s.pool[key]]));
    } else if key !in s.creating {
      var r := AcquireStep(s, key);
      assert forall id :: id in s.streams ==> (Pooled(s, id) <==> Pooled(r, id));
    }
  }

  lemma CreationReadyKeeps(s: Pool, id: Id)
    requires Inv(s) && id in s.building
    ensures Consistent(s) && Inv(Step(s, CreationReady(id)))
  {
    var r := Step(s, CreationReady(id));
    assert forall j :: j in s.streams ==> (Pooled(s, j) <==> Pooled(r, j));
  }

  lemma CreationEndsKeeps(s: Pool, ev: Event)
    requires Inv(s) && Enabled(s, ev) && (ev.CreationFails? || ev.CallerResumes?)
    ensures Consistent(s) && Inv(Step(s, ev))
  {
    var r := Step(s, ev);
    assert forall j :: j in s.streams ==> (Pooled(s, j) <==> Pooled(r, j));
  }

  lemma AddConsumerKeeps(s: Pool, id: Id, c: ConsumerId)
    requires Inv(s) && id in s.streams
    ensures Consistent(s) && Inv(Step(s, AddConsumer(id, c)))
  {
    StreamChanged(s, id, WithoutTimer(s.streams[id]).(consumers := s.streams[id].consumers + {c}));
  }

  lemma ReleaseKeeps(s: Pool, key: Key, c: ConsumerId)
    requires Inv(s)
    ensures Inv(ReleaseStep(s, key, c))
  {
    if key in s.pool {
      var id := s.pool[key];
      assert StreamOk(s, id);
      var st := s.streams[id].(consumers := s.streams[id].consumers - {c});
      StreamChanged(s, id, if st.consumers == {} && !st.idleTimer then st.(idleTimer := true, timerArmed := true) else st);
    }
  }

  lemma TimerFiresKeeps(s: Pool, id: Id)
    requires Inv(s) && Enabled(s, TimerFires(id))
    ensures Consistent(s) && Inv(Step(s, TimerFires(id)))
    ensures Step(s, TimerFires(id)) == Teardown(s, s.streams[id].key)
  {
    assert StreamOk(s, id);
    TeardownKeeps(s, s.streams[id].key);
  }

  lemma ReleaseCameraKeeps(s: Pool, cameraId: string)
    requires Inv(s)
    ensures Inv(ReleaseCameraStep(s, cameraId))
  {
    var r := ReleaseCameraStep(s, cameraId);
    assert r.streams.Keys == s.streams.Keys;
    assert CreationsOk(r);
    forall id | id in s.streams
      ensures r.streams[id].key == s.streams[id].key
      ensures Pooled(r, id) <==> Pooled(s, id) && s.streams[id].key.cameraId != cameraId
    {
    }
    forall id | id in r.streams
      ensures id < r.nextId && StreamOk(r, id) && r.streams[id].closes == if Pooled(r, id) then 0 else 1
    {
      assert StreamOk(s, id);
    }
  }

  lemma StepKeeps(s: Pool, ev: Event)
    requires Inv(s) && Enabled(s, ev)
    ensures Consistent(s) && Inv(Step(s, ev))
  {
    InvConsistent(s);
    match ev
    case Acquire(key) => AcquireKeeps(s, key);
    case CreationReady(id) => CreationReadyKeeps(s, id);
    case CreationFails(_) => CreationEndsKeeps(s, ev);
    case CallerResumes(_) => CreationEndsKeeps(s, ev);
    case AddConsumer(id, c) => AddConsumerKeeps(s, id, c);
    case Release(key, c) => ReleaseKeeps(s, key, c);
    case TimerFires(id) => TimerFiresKeeps(s, id);
    case StreamEnds(id) => TeardownKeeps(s, s.streams[id].key);
    case ReleaseCamera(cameraId) => ReleaseCameraKeeps(s, cameraId);
  }

  // ---------------------------------------------------------------- every interleaving

  ghost predicate IsRun(s: Pool, evs: seq<Event>)
    decreases |evs|
  {
    evs != [] ==> Consistent(s) && Enabled(s, evs[0]) && IsRun(Step(s, evs[0]), evs[1..])
  }

  ghost function Exec(s: Pool, evs: seq<Event>): Pool
    requires IsRun(s, evs)
    decreases |evs|
  {
    if evs == [] then s else Exec(Step(s, evs[0]), evs[1..])
  }

  lemma {:induction false} RunKeeps(s: Pool, evs: seq<Event>)
    requires Inv(s) && IsRun(s, evs)
    ensures Inv(Exec(s, evs))
    decreases |evs|
  {
    hide Inv, Step, Consistent;
    if evs != [] {
      StepKeeps(s, evs[0]);
      RunKeeps(Step(s, evs[0]), evs[1..]);
    }
  }

  lemma EmptyPoolInv()
    ensures Inv(EMPTY_POOL)
  {
  }

  /** Per camera and profile there is never more than one running creation or unclosed stream. */
  lemma AtMostOneLive(evs: seq<Event>, i: Id, j: Id)
    requires IsRun(EMPTY_POOL, evs)
    requires var s := Exec(EMPTY_POOL, evs); Live(s, i) && Live(s, j) && KeyOf(s, i) == KeyOf(s, j)
    ensures i == j
  {
    EmptyPoolInv();
    RunKeeps(EMPTY_POOL, evs);
  }

  /** Built streams are unclosed exactly while pooled, and never closed twice. */
  lemma ClosedExactlyOnce(evs: seq<Event>, id: Id)
    requires IsRun(EMPTY_POOL, evs) && id in Exec(EMPTY_POOL, evs).streams
    ensures var s := Exec(EMPTY_POOL, evs);
            && s.streams[id].closes <= 1
            && (s.streams[id].closes == 1 <==> !Pooled(s, id))
  {
    EmptyPoolInv();
    RunKeeps(EMPTY_POOL, evs);
  }

  /** The event by which a stream leaves the pool closes it; a stream that has left never returns,
      is never closed again and keeps its key. */
  lemma LeavingCloses(evs: seq<Event>, ev: Event, id: Id)
    requires IsRun(EMPTY_POOL, evs)
    requires var s := Exec(EMPTY_POOL, evs); Consistent(s) && Enabled(s, ev) && id in s.streams
    ensures var s := Exec(EMPTY_POOL, evs); var r := Step(s, ev);
            && id in r.streams && r.streams[id].key == s.streams[id].key
            && (Pooled(s, id) && !Pooled(r, id) ==> s.streams[id].closes == 0 && r.streams[id].closes == 1)
            && (!Pooled(s, id) ==> !Pooled(r, id) && r.streams[id].closes == s.streams[id].closes == 1)
  {
    EmptyPoolInv();
    RunKeeps(EMPTY_POOL, evs);
    var s := Exec(EMPTY_POOL, evs);
    StepKeeps(s, ev);
    StreamsStay(s, ev, id);
  }

  lemma StreamsStay(s: Pool, ev: Event, id: Id)
    requires Inv(s) && Consistent(s) && Enabled(s, ev) && id in s.streams
    ensures var r := Step(s, ev);
            && id in r.streams && r.streams[id].key == s.streams[id].key
            && r.streams[id].closes >= s.streams[id].closes
            && (!Pooled(s, id) ==> !Pooled(r, id))
  {
    hide CreationsOk;
    match ev
    case CreationReady(j) => NewIsDistinct(s, j, id);
    case TimerFires(j) => TimerFiresKeeps(s, j);
    case _ =>
  }

  lemma NewIsDistinct(s: Pool, j: Id, id: Id)
    requires Inv(s) && j in s.building && id in s.streams
    ensures j != id
  {
  }

  /** A pending idle timer belongs to a pooled stream without consumers, so when it fires it tears down
      that stream, nobody is cut off, and no other stream changes. */
  lemma IdleTeardownCutsOffNobody(evs: seq<Event>, id: Id)
    requires IsRun(EMPTY_POOL, evs)
    requires Enabled(Exec(EMPTY_POOL, evs), TimerFires(id))
    ensures var s := Exec(EMPTY_POOL, evs);
            && Consistent(s) && Pooled(s, id) && s.streams[id].consumers == {}
            && var r := Step(s, TimerFires(id));
            && r.pool == s.pool - {s.streams[id].key}
            && r.streams == s.streams[id := TornDown(s.streams[id])]
  {
    EmptyPoolInv();
    RunKeeps(EMPTY_POOL, evs);
    var s := Exec(EMPTY_POOL, evs);
    assert StreamOk(s, id);
    TimerFiresKeeps(s, id);
  }

  /** A pooled stream with a consumer leaves the pool exactly by a stream end under its key or by the
      release of its camera. */
  lemma ConsumersKeepStreams(evs: seq<Event>, ev: Event, id: Id)
    requires IsRun(EMPTY_POOL, evs)
    requires var s := Exec(EMPTY_POOL, evs);
             Consistent(s) && Enabled(s, ev) && Pooled(s, id) && s.streams[id].consumers != {}
    ensures var s := Exec(EMPTY_POOL, evs); var key := s.streams[id].key;
            Pooled(Step(s, ev), id) <==>
              !(ev.StreamEnds? && s.streams[ev.id].key == key) && !(ev.ReleaseCamera? && ev.cameraId == key.cameraId)
  {
    hide IsRun, Exec;
    EmptyPoolInv();
    RunKeeps(EMPTY_POOL, evs);
    var s := Exec(EMPTY_POOL, evs);
    ConsumersKeep(s, ev, id);
  }

  lemma ConsumersKeep(s: Pool, ev: Event, id: Id)
    requires Inv(s) && Consistent(s) && Enabled(s, ev) && Pooled(s, id) && s.streams[id].consumers != {}
    ensures var key := s.streams[id].key;
            Pooled(Step(s, ev), id) <==>
              !(ev.StreamEnds? && s.streams[ev.id].key == key) && !(ev.ReleaseCamera? && ev.cameraId == key.cameraId)
  {
    if ev.TimerFires? {
      assert StreamOk(s, ev.id);
    }
  }

  // ---------------------------------------------------------------- what each event brings about

  /** Only one stream object changes, and neither its key nor its being open. */
  ghost predicate OnlyStream(s: Pool, r: Pool, id: Id) {
    && r == s.(streams := r.streams) && r.streams.Keys == s.streams.Keys && id in s.streams
    && (forall j :: j in s.streams && j != id ==> r.streams[j] == s.streams[j])
    && r.streams[id].key == s.streams[id].key && r.streams[id].closes == s.streams[id].closes
  }

  /** A release takes that one consumer out; the idle timer is then scheduled exactly if none is left. */
  lemma ReleaseMeaning(s: Pool, key: Key, c: ConsumerId)
    requires Inv(s)
    ensures Consistent(s)
    ensures var r := Step(s, Release(key, c));
            && (key !in s.pool ==> r == s)
            && (key in s.pool ==>
                  var id := s.pool[key];
                  && OnlyStream(s, r, id)
                  && r.streams[id].consumers == s.streams[id].consumers - {c}
                  && (r.streams[id].timerArmed <==> r.streams[id].consumers == {}))
  {
    InvConsistent(s);
    if key in s.pool { assert StreamOk(s, s.pool[key]); }
  }

  /** An added consumer is registered beside the others, and no timer is scheduled any more. */
  lemma AddMeaning(s: Pool, id: Id, c: ConsumerId)
    requires Inv(s) && id in s.streams
    ensures Consistent(s)
    ensures var r := Step(s, AddConsumer(id, c));
            && OnlyStream(s, r, id) && r.streams[id].consumers == s.streams[id].consumers + {c}
            && !r.streams[id].timerArmed && !r.streams[id].idleTimer
  {
    InvConsistent(s);
  }

  /** An acquire keeps a pooled stream from idling, joins a creation, or starts one. */
  lemma AcquireMeaning(s: Pool, key: Key)
    requires Inv(s)
    ensures Consistent(s)
    ensures var r := Step(s, Acquire(key));
            && (key in s.pool ==>
                  var id := s.pool[key];
                  OnlyStream(s, r, id) && r.streams[id].consumers == s.streams[id].consumers && !r.streams[id].timerArmed)
            && (key !in s.pool && key in s.creating ==> r == s)
            && (key !in s.pool && key !in s.creating ==>
                  exists id: Id :: !Live(s, id) && r == s.(creating := s.creating[key := id], building := s.building[id := key],
                                                        nextId := r.nextId))
  {
    InvConsistent(s);
    if key !in s.pool && key !in s.creating {
      assert !Live(s, s.nextId);
    }
  }

  /** A finished creation puts a new open stream without consumers into the pool; a failed one puts
      nothing there; when the caller resumes, the key is free for another creation. */
  lemma CreationMeaning(s: Pool, id: Id)
    requires Inv(s)
    ensures Consistent(s)
    ensures id in s.building ==>
              var key, r := s.building[id], Step(s, CreationReady(id));
              && key in r.pool && r.pool[key] == id && id !in r.building
              && r.streams == s.streams[id := Stream(key, {}, false, false, 0)]
    ensures id in s.building ==>
              var r := Step(s, CreationFails(id));
              r.pool == s.pool && r.streams == s.streams && id !in r.building && id in r.settling
    ensures id in s.settling ==>
              var key, r := s.settling[id], Step(s, CallerResumes(id));
              key !in r.creating && id !in r.settling && r.pool == s.pool && r.streams == s.streams
  {
    InvConsistent(s);
  }

  /** The pooled stream of the key, and it alone, is closed and has lost its consumers and timer. */
  ghost predicate Closed(s: Pool, r: Pool, key: Key) {
    && r.pool == s.pool - {key} && r.streams.Keys == s.streams.Keys
    && (forall j :: j in s.streams ==>
          if Pooled(s, j) && s.streams[j].key == key
          then r.streams[j] == Stream(key, {}, false, false, s.streams[j].closes + 1)
          else r.streams[j] == s.streams[j])
  }

  /** A stream end closes the pooled stream of its key, a camera's release all of the camera's. */
  lemma EndMeaning(s: Pool, ev: Event)
    requires Inv(s) && Enabled(s, ev)
    ensures Consistent(s)
    ensures ev.StreamEnds? ==> Closed(s, Step(s, ev), s.streams[ev.id].key)
    ensures ev.TimerFires? ==> Closed(s, Step(s, ev), s.streams[ev.id].key) && Pooled(s, ev.id)
    ensures ev.ReleaseCamera? ==>
              var r := Step(s, ev);
              && (forall k :: k in r.pool <==> k in s.pool && k.cameraId != ev.cameraId)
              && (forall k :: k in r.pool ==> r.pool[k] == s.pool[k])
              && r.streams.Keys == s.streams.Keys
              && forall j :: j in s.streams ==>
                   if Pooled(s, j) && s.streams[j].key.cameraId == ev.cameraId
                   then r.streams[j] == Stream(s.streams[j].key, {}, false, false, s.streams[j].closes + 1)
                   else r.streams[j] == s.streams[j]
  {
    hide CreationsOk;
    InvConsistent(s);
    if ev.TimerFires? {
      assert StreamOk(s, ev.id);
      TimerFiresKeeps(s, ev.id);
    }
  }

  /** The events that end the wait of a scheduled idle timer. */
  predicate Disturbs(s: Pool, ev: Event, id: Id)
    requires id in s.streams && Enabled(s, ev)
  {
    var key := s.streams[id].key;
    match ev
    case Acquire(k) => k == key
    case AddConsumer(j, _) => j == id
    case TimerFires(j) => j == id
    case StreamEnds(j) => s.streams[j].key == key
    case ReleaseCamera(cameraId) => cameraId == key.cameraId
    case _ => false
  }

  /** A scheduled idle timer stays scheduled exactly through the events that do not concern its stream. */
  lemma ArmedStaysIff(s: Pool, ev: Event, id: Id)
    requires Inv(s) && Enabled(s, ev) && id in s.streams && s.streams[id].timerArmed
    ensures Consistent(s)
    ensures var r := Step(s, ev);
            id in r.streams && r.streams[id].key == s.streams[id].key && (r.streams[id].timerArmed <==> !Disturbs(s, ev, id))
  {
    hide CreationsOk;
    InvConsistent(s);
    assert StreamOk(s, id);
    match ev
    case Release(key, c) => ReleaseMeaning(s, key, c);
    case CreationReady(j) => NewIsDistinct(s, j, id);
    case TimerFires(j) =>
      TimerFiresKeeps(s, j);
      assert StreamOk(s, j);
    case _ =>
  }

  ghost predicate Undisturbed(s: Pool, evs: seq<Event>, id: Id)
    requires IsRun(s, evs)
    decreases |evs|
  {
    evs != [] ==> id in s.streams && !Disturbs(s, evs[0], id) && Undisturbed(Step(s, evs[0]), evs[1..], id)
  }

  lemma {:induction false} ArmedStaysInRun(s: Pool, evs: seq<Event>, id: Id)
    requires Inv(s) && IsRun(s, evs) && id in s.streams && s.streams[id].timerArmed && Undisturbed(s, evs, id)
    ensures var r := Exec(s, evs);
            Inv(r) && id in r.streams && r.streams[id].timerArmed && r.streams[id].key == s.streams[id].key
    decreases |evs|
  {
    hide Inv, Step, Consistent, Disturbs;
    if evs != [] {
      StepKeeps(s, evs[0]);
      ArmedStaysIff(s, evs[0], id);
      ArmedStaysInRun(Step(s, evs[0]), evs[1..], id);
    }
  }

  /** Over whole runs: when the last consumer of a pooled stream is released, the stream's timer can fire
      after any run that leaves the stream alone, and firing takes it out of the pool and closes it. */
  lemma IdleStreamCloses(evs: seq<Event>, quiet: seq<Event>, id: Id, c: ConsumerId)
    requires IsRun(EMPTY_POOL, evs)
    requires var s := Exec(EMPTY_POOL, evs);
             && Consistent(s) && Pooled(s, id) && s.streams[id].consumers <= {c}
             && IsRun(Step(s, Release(s.streams[id].key, c)), quiet)
             && Undisturbed(Step(s, Release(s.streams[id].key, c)), quiet, id)
    ensures var s := Exec(EMPTY_POOL, evs);
            var idle := Exec(Step(s, Release(s.streams[id].key, c)), quiet);
            && Consistent(idle) && Enabled(idle, TimerFires(id)) && Pooled(idle, id)
            && var r := Step(idle, TimerFires(id));
            && id in r.streams && !Pooled(r, id) && s.streams[id].key !in r.pool
            && idle.streams[id].closes == 0 && r.streams[id].closes == 1
  {
    hide IsRun, Exec, Undisturbed;
    EmptyPoolInv();
    RunKeeps(EMPTY_POOL, evs);
    var s := Exec(EMPTY_POOL, evs);
    var ev := Release(s.streams[id].key, c);
    ReleaseMeaning(s, s.streams[id].key, c);
    StepKeeps(s, ev);
    var r := Step(s, ev);
    ArmedStaysInRun(r, quiet, id);
    var idle := Exec(r, quiet);
    InvConsistent(idle);
    EndMeaning(idle, TimerFires(id));
  }

  /** Every entry of `creating` belongs to a creation that is running or whose caller has yet to resume. */
  ghost predicate CreationsBacked(s: Pool) {
    forall key :: key in s.creating ==>
      var id := s.creating[key];
      (id in s.building && s.building[id] == key) || (id in s.settling && s.settling[id] == key)
  }

  lemma BackedStep(s: Pool, ev: Event)
    requires Inv(s) && CreationsBacked(s) && Enabled(s, ev)
    ensures Consistent(s) && CreationsBacked(Step(s, ev))
  {
    hide StreamsOk;
    InvConsistent(s) by { hide CreationsOk; }
  }

  lemma {:induction false} BackedRun(s: Pool, evs: seq<Event>)
    requires Inv(s) && CreationsBacked(s) && IsRun(s, evs)
    ensures CreationsBacked(Exec(s, evs))
    decreases |evs|
  {
    hide Inv, Step, Consistent, CreationsBacked;
    if evs != [] {
      StepKeeps(s, evs[0]);
      BackedStep(s, evs[0]);
      BackedRun(Step(s, evs[0]), evs[1..]);
    }
  }

  /** So no key is ever blocked by a creation that is over. */
  lemma NoKeyBlocked(evs: seq<Event>)
    requires IsRun(EMPTY_POOL, evs)
    ensures CreationsBacked(Exec(EMPTY_POOL, evs))
  {
    EmptyPoolInv();
    BackedRun(EMPTY_POOL, evs);
  }

  // ---------------------------------------------------------------- the module's state as an object

  datatype Acquired = Existing(id: Id) | InFlight(id: Id) | Creates(id: Id)

  class StreamPoolState {
    var pool: map<Key, Id>
    var creating: map<Key, Id>
    var building: map<Id, Key>
    var settling: map<Id, Key>
    var streams: map<Id, Stream>
    var nextId: Id

    ghost function View(): Pool
      reads this
    {
      Pool(pool, creating, building, settling, streams, nextId)
    }

    ghost predicate Valid()
      reads this
    {
      Inv(View())
    }

    constructor ()
      ensures View() == EMPTY_POOL && Valid()
    {
      pool, creating, building, settling, streams, nextId := map[], map[], map[], map[], map[], 0;
      EmptyPoolInv();
    }

    /** The synchronous part of `acquireStream`. */
    method AcquireStream(key: Key) returns (r: Acquired)
      requires Valid()
      modifies this
      ensures Valid() && View() == AcquireStep(old(View()), key)
      ensures r == (if key in old(pool) then Existing(old(pool)[key])
                    else if key in old(creating) then InFlight(old(creating)[key])
                    else Creates(old(nextId)))
    {
      AcquireKeeps(View(), key);
      if key in pool {
        var id := pool[key];
        streams := streams[id := streams[id].(idleTimer := false, timerArmed := false)];
        return Existing(id);
      }
      if key in creating {
        return InFlight(creating[key]);
      }
      var id := nextId;
      nextId := nextId + 1;
      building := building[id := key];
      creating := creating[key := id];
      r := Creates(id);
    }

    /** The end of `createSharedStream`: the new object goes into the pool. */
    method CreationReady(id: Id)
      requires Valid() && id in building
      modifies this
      ensures Valid() && Consistent(old(View())) && View() == Step(old(View()), Event.CreationReady(id))
    {
      CreationReadyKeeps(View(), id);
      var key := building[id];
      streams := streams[id := Stream(key, {}, false, false, 0)];
      pool := pool[key := id];
      building := building - {id};
      settling := settling[id := key];
    }

    /** The `finally` of the creating caller. */
    method CallerResumes(id: Id)
      requires Valid() && id in settling
      modifies this
      ensures Valid() && Consistent(old(View())) && View() == Step(old(View()), Event.CallerResumes(id))
    {
      CreationEndsKeeps(View(), Event.CallerResumes(id));
      creating := creating - {settling[id]};
      settling := settling - {id};
    }

    method AddConsumer(id: Id, consumer: ConsumerId)
      requires Valid() && id in streams
      modifies this
      ensures Valid() && Consistent(old(View())) && View() == Step(old(View()), Event.AddConsumer(id, consumer))
      ensures consumer in streams[id].consumers && !streams[id].timerArmed
    {
      AddConsumerKeeps(View(), id, consumer);
      var st := streams[id];
      if st.idleTimer {
        st := st.(idleTimer := false, timerArmed := false);
      }
      assert StreamOk(View(), id);
      streams := streams[id := st.(consumers := st.consumers + {consumer})];
    }

    method RemoveConsumer(key: Key, consumer: ConsumerId)
      requires Valid()
      modifies this
      ensures Valid() && View() == ReleaseStep(old(View()), key, consumer)
      ensures key in pool ==>
                && pool[key] in streams && pool[key] in old(streams)
                && streams[pool[key]].consumers == old(streams)[pool[key]].consumers - {consumer}
                && (streams[pool[key]].timerArmed <==> streams[pool[key]].consumers == {})
    {
      ReleaseMeaning(View(), key, consumer);
      ReleaseKeeps(View(), key, consumer);
      if key !in pool { return; }
      var id := pool[key];
      var st := streams[id].(consumers := streams[id].consumers - {consumer});
      if st.consumers == {} && !st.idleTimer {
        st := st.(idleTimer := true, timerArmed := true);
      }
      streams := streams[id := st];
    }

    /** Returns the consumers that are notified. */
    method TeardownStream(key: Key) returns (notified: set<ConsumerId>)
      requires Valid()
      modifies this
      ensures Valid() && Consistent(old(View())) && View() == Teardown(old(View()), key)
      ensures notified == if key in old(pool) then old(streams)[old(pool)[key]].consumers else {}
    {
      TeardownKeeps(View(), key);
      if key !in pool { return {}; }
      var id := pool[key];
      pool := pool - {key};
      var st := streams[id];
      if st.idleTimer {
        st := st.(idleTimer := false, timerArmed := false);
      }
      assert StreamOk(old(View()), id);
      notified := st.consumers;
      streams := streams[id := st.(consumers := {}, closes := st.closes + 1)];
    }

    /** The timeout callback of an idle stream. */
    method IdleTimeout(id: Id)
      requires Valid() && id in streams && streams[id].timerArmed
      modifies this
      ensures Valid() && Consistent(old(View())) && View() == Step(old(View()), TimerFires(id))
    {
      TimerFiresKeeps(View(), id);
      assert StreamOk(View(), id);
      if streams[id].consumers == {} {
        var _ := TeardownStream(streams[id].key);
      }
    }

    method ReleaseStreamsByCamera(cameraId: string)
      requires Valid()
      modifies this
      ensures Valid() && View() == ReleaseCameraStep(old(View()), cameraId)
    {
      ghost var before := View();
      var keys := pool.Keys;
      ReleasedNone(before, cameraId);
      while keys != {}
        invariant Valid() && keys <= before.pool.Keys
        invariant View() == ReleasedExcept(before, cameraId, keys)
      {
        var key :| key in keys;
        if key.cameraId != cameraId {
          ReleaseSkipsOther(before, cameraId, keys, key);
        } else {
          ReleaseOneMore(before, cameraId, keys, key);
          var _ := TeardownStream(key);
        }
        keys := keys - {key};
      }
      ReleasedAll(before, cameraId);
    }
  }

  /** The pool part-way through a release: the keys in `keys` have not been visited yet. */
  ghost function ReleasedExcept(s: Pool, cameraId: string, keys: set<Key>): Pool {
    s.(pool := map k | k in s.pool && (k.cameraId != cameraId || k in keys) :: s.pool[k],
       streams := map id | id in s.streams ::
         if Pooled(s, id) && s.streams[id].key.cameraId == cameraId && s.streams[id].key !in keys
         then TornDown(s.streams[id]) else s.streams[id])
  }

  lemma ReleasedAll(s: Pool, cameraId: string)
    ensures ReleasedExcept(s, cameraId, {}) == ReleaseCameraStep(s, cameraId)
  {
    assert ReleasedExcept(s, cameraId, {}).pool == ReleaseCameraStep(s, cameraId).pool;
    assert ReleasedExcept(s, cameraId, {}).streams == ReleaseCameraStep(s, cameraId).streams;
  }

  lemma ReleasedNone(s: Pool, cameraId: string)
    requires Inv(s)
    ensures ReleasedExcept(s, cameraId, s.pool.Keys) == s
  {
    assert ReleasedExcept(s, cameraId, s.pool.Keys).pool == s.pool;
    assert ReleasedExcept(s, cameraId, s.pool.Keys).streams == s.streams;
  }

  lemma ReleaseSkipsOther(s: Pool, cameraId: string, keys: set<Key>, key: Key)
    requires Inv(s) && key.cameraId != cameraId
    ensures ReleasedExcept(s, cameraId, keys - {key}) == ReleasedExcept(s, cameraId, keys)
  {
    var r, t := ReleasedExcept(s, cameraId, keys), ReleasedExcept(s, cameraId, keys - {key});
    assert t.pool == r.pool;
    assert t.streams == r.streams;
  }

  lemma ReleaseOneMore(s: Pool, cameraId: string, keys: set<Key>, key: Key)
    requires Inv(s) && key in keys && keys <= s.pool.Keys && key.cameraId == cameraId
    ensures var r := ReleasedExcept(s, cameraId, keys);
            && key in r.pool && r.pool[key] in r.streams
            && ReleasedExcept(s, cameraId, keys - {key}) == Teardown(r, key)
  {
    hide CreationsOk;
    var r, t := ReleasedExcept(s, cameraId, keys), ReleasedExcept(s, cameraId, keys - {key});
    var id := s.pool[key];
    assert r.streams[id] == s.streams[id] && t.streams[id] == TornDown(s.streams[id]);
    assert t.pool == Teardown(r, key).pool;
    forall j | j in s.streams && j != id ensures t.streams[j] == r.streams[j] {
      if Pooled(s, j) { assert s.streams[j].key != key; }
    }
    assert t.streams == Teardown(r, key).streams;
  }
}
