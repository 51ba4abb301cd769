/** The reconnect backoff of `app/src/rtsp-manager.ts`, shared by the watchdog and by the immediate
    trigger on a closed connection. */
module Reconnect {

  const INITIAL_DELAY_MS: nat := 5_000
  const MAX_DELAY_MS: nat := 300_000

  type Key = string

  datatype Backoff = Backoff(attempts: nat, lastAttempt: nat)

  type States = map<Key, Backoff>

  function Pow2(n: nat): nat {
    if n == 0 then 1 else 2 * Pow2(n - 1)
  }

  function Min(a: nat, b: nat): nat { if a < b then a else b }

  function NextReconnectDelay(attempts: nat): nat {
    Min(INITIAL_DELAY_MS * Pow2(if attempts > 0 then attempts - 1 else 0), MAX_DELAY_MS)
  }

  datatype Source = Watchdog | Immediate

  /** What touches the backoff state of a key. A check looks at the connection and may attempt. */
  datatype Event =
    | Check(key: Key, source: Source, ready: bool, connecting: bool, now: nat)
    | Succeeded(key: Key)
    | Stopped

  function StateOf(st: States, key: Key): Backoff {
    if key in st then st[key] else Backoff(0, 0)
  }

  function AttemptsOf(st: States, key: Key): nat { if key in st then st[key].attempts else 0 }

  /** The backoff window of the key is still open at `now`. */
  predicate TooSoon(b: Backoff, now: nat) {
    b.lastAttempt > 0 && now - b.lastAttempt < NextReconnectDelay(b.attempts)
  }

  predicate Attempts(st: States, ev: Event) {
    ev.Check? && !ev.ready && !ev.connecting && !TooSoon(StateOf(st, ev.key), ev.now)
  }

  function Apply(st: States, ev: Event): States {
    match ev
    case Check(key, source, ready, connecting, now) =>
      if ready then (if source == Watchdog then st - {key} else st)
      else if Attempts(st, ev) then st[key := Backoff(StateOf(st, key).attempts + 1, now)]
      else st
    case Succeeded(key) => st - {key}
    case Stopped => map[]
  }

  function ApplyAll(st: States, evs: seq<Event>): States
    decreases |evs|
  {
    if evs == [] then st else Apply(ApplyAll(st, evs[..|evs| - 1]), evs[|evs| - 1])
  }

  // ---------------------------------------------------------------- the module-level state

  /** A configured camera as the watchdog sees it: its key, whether it is skipped by configuration,
      what its connection looks like, the clock, how the attempt ends, and what else touches the
      backoff state while the attempt is awaited. */
  datatype Camera = Camera(key: Key, skipped: bool, ready: bool, connecting: bool, now: nat, succeeds: bool, meanwhile: seq<Event>)

  class ReconnectState {
    var states: States

    constructor ()
      ensures states == map[]
    {
      states := map[];
    }

    /** The synchronous part of a check: decide and, for an attempt, register it. */
    method Consider(key: Key, source: Source, ready: bool, connecting: bool, now: nat) returns (attempted: bool)
      modifies this
      ensures states == Apply(old(states), Check(key, source, ready, connecting, now))
      ensures attempted == Attempts(old(states), Check(key, source, ready, connecting, now))
      ensures attempted <==>
                && !ready && !connecting
                && (key in old(states) && old(states)[key].lastAttempt > 0 && old(states)[key].attempts > 0 ==>
                      now >= old(states)[key].lastAttempt + PauseAfter(old(states)[key].attempts))
                && (key in old(states) && old(states)[key].lastAttempt > 0 && old(states)[key].attempts == 0 ==>
                      now >= old(states)[key].lastAttempt + 5_000)
      ensures attempted ==> key in states && states[key] == Backoff(AttemptsOf(old(states), key) + 1, now)
    {
      if key in states && states[key].attempts > 0 { DelayIsPause(states[key].attempts); }
      if ready {
        if source == Watchdog {
          states := states - {key};
        }
        return false;
      }
      if connecting {
        return false;
      }
      var state := if key in states then states[key] else Backoff(0, 0);
      if state.lastAttempt > 0 && now - state.lastAttempt < NextReconnectDelay(state.attempts) {
        return false;
      }
      states := states[key := Backoff(state.attempts + 1, now)];
      attempted := true;
    }

    method Forget(key: Key)
      modifies this
      ensures states == Apply(old(states), Succeeded(key))
    {
      states := states - {key};
    }

    /** One watchdog tick over the configured cameras. Every await lets other events in. */
    method RunReconnectCheck(cameras: seq<Camera>) returns (attempted: seq<Key>)
      modifies this
      ensures states == Tick(old(states), cameras, {}).states
      ensures attempted == Tick(old(states), cameras, {}).attempted
    {
      hide ApplyAll, Apply, Attempts;
      attempted := [];
      var seenKeys: set<Key> := {};
      assert cameras[0..] == cameras;
      for n := 0 to |cameras|
        invariant Tick(old(states), cameras, {}).states == Tick(states, cameras[n..], seenKeys).states
        invariant Tick(old(states), cameras, {}).attempted == attempted + Tick(states, cameras[n..], seenKeys).attempted
      {
        var camera := cameras[n];
        assert cameras[n..][1..] == cameras[n + 1..];
        if camera.skipped || camera.key in seenKeys {
          continue;
        }
        seenKeys := seenKeys + {camera.key};
        var go := Consider(camera.key, Watchdog, camera.ready, camera.connecting, camera.now);
        if go {
          attempted := attempted + [camera.key];
          states := ApplyAll(states, camera.meanwhile);
          if camera.succeeds {
            Forget(camera.key);
          }
        }
      }
    }

    /** The synchronous part of an immediate trigger is one check. */
    method TriggerImmediateReconnect(camera: Camera) returns (attempted: bool)
      modifies this
      ensures camera.skipped ==> !attempted && states == old(states)
      ensures !camera.skipped ==>
                var ev := Check(camera.key, Immediate, camera.ready, camera.connecting, camera.now);
                states == Apply(old(states), ev) && attempted == Attempts(old(states), ev)
    {
      if camera.skipped {
        return false;
      }
      attempted := Consider(camera.key, Immediate, camera.ready, camera.connecting, camera.now);
    }
  }

  // ---------------------------------------------------------------- one watchdog tick

  datatype TickResult = TickResult(states: States, attempted: seq<Key>, trace: seq<Event>)

  function CheckOf(c: Camera): Event { Check(c.key, Watchdog, c.ready, c.connecting, c.now) }

  /** The events of one camera's turn: the check and, if it attempts, what happens up to the attempt's end. */
  function TurnOf(st: States, c: Camera): seq<Event> {
    if Attempts(st, CheckOf(c))
    then [CheckOf(c)] + c.meanwhile + (if c.succeeds then [Succeeded(c.key)] else [])
    else [CheckOf(c)]
  }

  /** A tick: each key that is not skipped gets one turn. */
  function Tick(st: States, cameras: seq<Camera>, seen: set<Key>): TickResult
    decreases |cameras|
  {
    if cameras == [] then TickResult(st, [], [])
    else
      var c := cameras[0];
      if c.skipped || c.key in seen then Tick(st, cameras[1..], seen)
      else
        var checked := Apply(st, CheckOf(c));
        if Attempts(st, CheckOf(c)) then
          var waited := ApplyAll(checked, c.meanwhile);
          var ended := if c.succeeds then Apply(waited, Succeeded(c.key)) else waited;
          var rest := Tick(ended, cameras[1..], seen + {c.key});
          TickResult(rest.states, [c.key] + rest.attempted, TurnOf(st, c) + rest.trace)
        else
          var rest := Tick(checked, cameras[1..], seen + {c.key});
          TickResult(rest.states, rest.attempted, TurnOf(st, c) + rest.trace)
  }

  /** A tick is one interleaving of atomic events, so what is proved of all event sequences covers it. */
  lemma {:induction false} TickIsInterleaving(st: States, cameras: seq<Camera>, seen: set<Key>)
    ensures Tick(st, cameras, seen).states == ApplyAll(st, Tick(st, cameras, seen).trace)
    decreases |cameras|
  {
    hide Apply, Attempts;
    if cameras != [] {
      var c := cameras[0];
      if c.skipped || c.key in seen {
        TickIsInterleaving(st, cameras[1..], seen);
      } else {
        var ended := ApplyAll(st, TurnOf(st, c));
        TurnEnds(st, c);
        TickIsInterleaving(ended, cameras[1..], seen + {c.key});
        ApplyAllConcat(st, TurnOf(st, c), Tick(ended, cameras[1..], seen + {c.key}).trace);
      }
    }
  }

  lemma TurnEnds(st: States, c: Camera)
    ensures ApplyAll(st, TurnOf(st, c)) ==
            if !Attempts(st, CheckOf(c)) then Apply(st, CheckOf(c))
            else
              var waited := ApplyAll(Apply(st, CheckOf(c)), c.meanwhile);
              if c.succeeds then Apply(waited, Succeeded(c.key)) else waited
  {
    hide Apply, Attempts;
    ApplyOne(st, CheckOf(c));
    if Attempts(st, CheckOf(c)) {
      ApplyAllConcat(st, [CheckOf(c)], c.meanwhile);
      if c.succeeds {
        ApplyAllConcat(st, [CheckOf(c)] + c.meanwhile, [Succeeded(c.key)]);
        ApplyOne(ApplyAll(st, [CheckOf(c)] + c.meanwhile), Succeeded(c.key));
      } else {
        assert [CheckOf(c)] + c.meanwhile + [] == [CheckOf(c)] + c.meanwhile;
      }
    }
  }

  lemma ApplyOne(st: States, ev: Event)
    ensures ApplyAll(st, [ev]) == Apply(st, ev)
  {
    assert [ev][..0] == [];
  }

  ghost predicate Considered(cameras: seq<Camera>, key: Key) {
    exists n :: 0 <= n < |cameras| && cameras[n].key == key && !cameras[n].skipped
  }

  lemma ConsideredLater(cameras: seq<Camera>, key: Key)
    requires cameras != [] && Considered(cameras[1..], key)
    ensures Considered(cameras, key)
  {
    var n :| 0 <= n < |cameras| - 1 && cameras[1..][n].key == key && !cameras[1..][n].skipped;
    assert cameras[n + 1].key == key;
  }

  ghost predicate EachOnce(keys: seq<Key>, seen: set<Key>) {
    && (forall i, j :: 0 <= i < j < |keys| ==> keys[i] != keys[j])
    && (forall i :: 0 <= i < |keys| ==> keys[i] !in seen)
  }

  lemma EachOnceCons(key: Key, keys: seq<Key>, seen: set<Key>)
    requires EachOnce(keys, seen + {key}) && key !in seen
    ensures EachOnce([key] + keys, seen) && EachOnce(keys, seen)
  {
  }

  /** A tick attempts no key twice, however many cameras share it and whatever happens meanwhile, and
      only keys of cameras that are not skipped. */
  lemma {:induction false} TickAttemptsOnce(st: States, cameras: seq<Camera>, seen: set<Key>)
    ensures var keys := Tick(st, cameras, seen).attempted;
            EachOnce(keys, seen) && forall key :: key in keys ==> Considered(cameras, key)
    decreases |cameras|
  {
    hide Apply, ApplyAll, Attempts, TurnOf, EachOnce, Considered;
    if cameras == [] {
      assert EachOnce([], seen) by { NoKeys(seen); }
    } else {
      var c := cameras[0];
      forall key | Considered(cameras[1..], key) ensures Considered(cameras, key) { ConsideredLater(cameras, key); }
      if c.skipped || c.key in seen {
        TickAttemptsOnce(st, cameras[1..], seen);
      } else {
        var ended := ApplyAll(st, TurnOf(st, c));
        TurnEnds(st, c);
        TickAttemptsOnce(ended, cameras[1..], seen + {c.key});
        EachOnceCons(c.key, Tick(ended, cameras[1..], seen + {c.key}).attempted, seen);
        FirstConsidered(cameras);
      }
    }
  }

  lemma NoKeys(seen: set<Key>)
    ensures EachOnce([], seen)
  {
  }

  lemma FirstConsidered(cameras: seq<Camera>)
    requires cameras != [] && !cameras[0].skipped
    ensures Considered(cameras, cameras[0].key)
  {
  }

  lemma {:induction false} ApplyAllConcat(st: States, x: seq<Event>, y: seq<Event>)
    ensures ApplyAll(st, x + y) == ApplyAll(ApplyAll(st, x), y)
    decreases |y|
  {
    if y == [] {
      assert x + y == x;
    } else {
      assert (x + y)[..|x + y| - 1] == x + y[..|y| - 1];
      ApplyAllConcat(st, x, y[..|y| - 1]);
    }
  }

  // ---------------------------------------------------------------- spacing of attempts

  predicate AttemptAt(evs: seq<Event>, i: nat, key: Key)
    requires i < |evs|
  {
    Attempts(ApplyAll(map[], evs[..i]), evs[i]) && evs[i].key == key
  }

  /** Success, a connection the watchdog found ready, or stopping the watchdog. */
  predicate Resets(ev: Event, key: Key) {
    match ev
    case Check(k, source, ready, _, _) => k == key && ready && source == Watchdog
    case Succeeded(k) => k == key
    case Stopped => true
  }

  /** The attempts on a key among the first `n` events, counted from the last reset. */
  function Count(evs: seq<Event>, n: nat, key: Key): nat
    requires n <= |evs|
    decreases n
  {
    if n == 0 || Resets(evs[n - 1], key) then 0
    else Count(evs, n - 1, key) + (if AttemptAt(evs, n - 1, key) then 1 else 0)
  }

  /** The position of the last attempt on a key since its last reset. */
  ghost predicate LastAttempt(evs: seq<Event>, n: nat, key: Key, i: nat)
    requires n <= |evs|
  {
    && i < n && AttemptAt(evs, i, key)
    && forall m :: i < m < n ==> !Resets(evs[m], key) && !AttemptAt(evs, m, key)
  }

  /** Clock readings are positive and never go back. */
  ghost predicate ClockOk(evs: seq<Event>) {
    && (forall i :: 0 <= i < |evs| && evs[i].Check? ==> evs[i].now > 0)
    && (forall i, j :: 0 <= i < j < |evs| && evs[i].Check? && evs[j].Check? ==> evs[i].now <= evs[j].now)
  }

  /** The stored state is the attempt count since the last reset and the time of the last attempt. */
  ghost predicate IsHistory(evs: seq<Event>, n: nat, key: Key, st: States)
    requires n <= |evs|
  {
    && StateOf(st, key).attempts == Count(evs, n, key)
    && (key !in st <==> Count(evs, n, key) == 0)
    && (key in st ==> exists i: nat :: LastAttempt(evs, n, key, i) && st[key].lastAttempt == evs[i].now)
  }

  lemma OneLastAttempt(evs: seq<Event>, n: nat, key: Key, i: nat, j: nat)
    requires n <= |evs| && LastAttempt(evs, n, key, i) && LastAttempt(evs, n, key, j)
    ensures i == j
  {
  }

  lemma QuietStep(evs: seq<Event>, n: nat, key: Key, st: States)
    requires n < |evs| && IsHistory(evs, n, key, st) && st == ApplyAll(map[], evs[..n])
    requires !Resets(evs[n], key) && !AttemptAt(evs, n, key)
    ensures IsHistory(evs, n + 1, key, Apply(st, evs[n]))
  {
    hide ApplyAll, TooSoon;
    var r := Apply(st, evs[n]);
    assert key in st <==> key in r;
    assert key in st ==> r[key] == st[key];
    if key in st {
      var i: nat :| LastAttempt(evs, n, key, i) && st[key].lastAttempt == evs[i].now;
      assert LastAttempt(evs, n + 1, key, i);
    }
  }

  lemma {:induction false} StateIsHistory(evs: seq<Event>, n: nat, key: Key)
    requires n <= |evs|
    ensures IsHistory(evs, n, key, ApplyAll(map[], evs[..n]))
    decreases n
  {
    hide TooSoon;
    if n > 0 {
      assert evs[..n][..n - 1] == evs[..n - 1];
      StateIsHistory(evs, n - 1, key);
      var before := ApplyAll(map[], evs[..n - 1]);
      if Resets(evs[n - 1], key) {
      } else if AttemptAt(evs, n - 1, key) {
        assert LastAttempt(evs, n, key, n - 1);
      } else {
        QuietStep(evs, n - 1, key, before);
      }
    }
  }

  /** Five seconds after the first attempt, twice as long after each further one, five minutes at most. */
  function PauseAfter(attempts: nat): nat
    requires attempts > 0
  {
    if attempts == 1 then 5_000
    else if 2 * PauseAfter(attempts - 1) < 300_000 then 2 * PauseAfter(attempts - 1) else 300_000
  }

  lemma {:induction false} DelayIsPause(k: nat)
    requires k > 0
    ensures NextReconnectDelay(k) == Min(INITIAL_DELAY_MS * Pow2(k - 1), MAX_DELAY_MS) == PauseAfter(k)
    decreases k
  {
    if k == 1 {
      assert Pow2(0) == 1;
    } else {
      DelayIsPause(k - 1);
      assert Pow2(k - 1) == 2 * Pow2(k - 2);
    }
  }

  /** Over every interleaving of watchdog ticks and immediate triggers: attempt k and the next one,
      with no reset of the key between them, are at least min(5 s * 2^(k-1), 5 min) apart. */
  lemma AttemptsAreSpaced(evs: seq<Event>, key: Key, i: nat, j: nat)
    requires ClockOk(evs) && i < j < |evs|
    requires AttemptAt(evs, i, key) && AttemptAt(evs, j, key)
    requires forall m :: i < m < j ==> !Resets(evs[m], key) && !AttemptAt(evs, m, key)
    ensures var k := Count(evs, i + 1, key);
            && k >= 1 && evs[j].now - evs[i].now >= Min(INITIAL_DELAY_MS * Pow2(k - 1), MAX_DELAY_MS)
            && evs[j].now - evs[i].now >= PauseAfter(k)
  {
    hide ApplyAll;
    if Count(evs, i + 1, key) > 0 { DelayIsPause(Count(evs, i + 1, key)); }
    StateIsHistory(evs, j, key);
    assert LastAttempt(evs, j, key, i);
    forall i': nat | LastAttempt(evs, j, key, i') ensures i' == i { OneLastAttempt(evs, j, key, i, i'); }
    CountStays(evs, key, i + 1, j);
  }

  lemma {:induction false} CountStays(evs: seq<Event>, key: Key, i: nat, j: nat)
    requires i <= j <= |evs|
    requires forall m :: i <= m < j ==> !Resets(evs[m], key) && !AttemptAt(evs, m, key)
    ensures Count(evs, j, key) == Count(evs, i, key)
    decreases j
  {
    if i < j {
      CountStays(evs, key, i, j - 1);
    }
  }

  /** Nothing else is held back: a check of a key that is neither ready nor connecting attempts as soon as
      the pause after the last attempt since the reset is over, and never before. */
  lemma AttemptIff(evs: seq<Event>, j: nat)
    requires ClockOk(evs) && j < |evs| && evs[j].Check?
    ensures var key, k := evs[j].key, Count(evs, j, evs[j].key);
            AttemptAt(evs, j, key) <==>
              && !evs[j].ready && !evs[j].connecting
              && (k > 0 ==> exists i: nat :: LastAttempt(evs, j, key, i) && evs[j].now - evs[i].now >= PauseAfter(k))
  {
    hide ApplyAll, NextReconnectDelay, PauseAfter;
    var key := evs[j].key;
    if Count(evs, j, key) > 0 { DelayIsPause(Count(evs, j, key)); }
    StateIsHistory(evs, j, key);
    forall i: nat, i': nat | LastAttempt(evs, j, key, i) && LastAttempt(evs, j, key, i') ensures i' == i {
      OneLastAttempt(evs, j, key, i, i');
    }
  }
}
