/** The shared P2P lookup of a UID (`p2pUidLookup` in `src/bcudp/BcUdpStream.ts`): one piece of work
    at a time, shared by concurrent callers, with a positive and a negative cache behind it. */
module P2pLookup {
  import opened ByteStrings

  const CACHE_TTL_MS: nat := 30_000
  const NEG_CACHE_TTL_MS: nat := 15_000

  type Uid = string

  /** What the lookup work produced: relay addresses or an error, both opaque here. */
  datatype Outcome = Success(result: int) | Failure(error: int)

  /** One run of the underlying work. */
  datatype Work = Work(started: nat, finished: Option<Finish>)

  datatype Finish = Finish(at: nat, outcome: Outcome)

  datatype Entry = Entry(value: int, expires: nat)

  /** Everything known about one UID. `works` is the history of the work ever started for it. */
  datatype Slot = Slot(inflight: Option<nat>, cached: Option<Entry>, negCached: Option<Entry>, works: seq<Work>)

  const EMPTY_SLOT := Slot(None, None, None, [])

  /** How a call is served. `Shared` and `Started` name the work whose outcome the caller awaits. */
  datatype Reply = FromCache(result: int) | FromNegCache(error: int) | Shared(work: nat) | Started(work: nat)

  predicate Live(entry: Option<Entry>, now: nat) {
    entry.Some? && entry.value.expires > now
  }

  function Call(s: Slot, now: nat): (Slot, Reply) {
    if Live(s.cached, now) then (s, FromCache(s.cached.value.value))
    else if Live(s.negCached, now) then (s, FromNegCache(s.negCached.value.value))
    else if s.inflight.Some? then (s, Shared(s.inflight.value))
    else (s.(inflight := Some(|s.works|), works := s.works + [Work(now, None)]), Started(|s.works|))
  }

  /** The work in flight ends: fill the cache its outcome belongs to, then free the slot. */
  function Complete(s: Slot, outcome: Outcome, now: nat): Slot
    requires s.inflight.Some? && s.inflight.value < |s.works|
  {
    var i := s.inflight.value;
    var s' := s.(inflight := None, works := s.works[i := s.works[i].(finished := Some(Finish(now, outcome)))]);
    match outcome
    case Success(r) => s'.(cached := Some(Entry(r, now + CACHE_TTL_MS)))
    case Failure(e) => s'.(negCached := Some(Entry(e, now + NEG_CACHE_TTL_MS)))
  }

  // ---------------------------------------------------------------- the module-level maps

  class Lookups {
    var inflight: map<Uid, nat>
    var cached: map<Uid, Entry>
    var negCached: map<Uid, Entry>
    /** The promises handed out so far, oldest first. */
    var works: map<Uid, seq<Work>>

    ghost predicate Valid()
      reads this
    {
      forall u :: u in inflight ==> u in works && inflight[u] < |works[u]|
    }

    ghost function View(u: Uid): Slot
      reads this
    {
      Slot(if u in inflight then Some(inflight[u]) else None,
           if u in cached then Some(cached[u]) else None,
           if u in negCached then Some(negCached[u]) else None,
           if u in works then works[u] else [])
    }

    constructor ()
      ensures Valid() && forall u :: View(u) == EMPTY_SLOT
    {
      inflight, cached, negCached, works := map[], map[], map[], map[];
    }

    method P2pUidLookup(uid: Uid, now: nat) returns (reply: Reply)
      requires Valid()
      modifies this
      ensures Valid()
      ensures (View(uid), reply) == Call(old(View(uid)), now)
      ensures forall u :: u != uid ==> View(u) == old(View(u))
    {
      if uid in cached && cached[uid].expires > now {
        return FromCache(cached[uid].value);
      }
      if uid in negCached && negCached[uid].expires > now {
        return FromNegCache(negCached[uid].value);
      }
      if uid in inflight {
        return Shared(inflight[uid]);
      }
      var earlier := if uid in works then works[uid] else [];
      works := works[uid := earlier + [Work(now, None)]];
      inflight := inflight[uid := |earlier|];
      reply := Started(|earlier|);
    }

    method WorkEnds(uid: Uid, outcome: Outcome, now: nat)
      requires Valid() && uid in inflight
      modifies this
      ensures Valid()
      ensures View(uid) == Complete(old(View(uid)), outcome, now)
      ensures forall u :: u != uid ==> View(u) == old(View(u))
    {
      var id := inflight[uid];
      match outcome {
        case Success(r) => cached := cached[uid := Entry(r, now + CACHE_TTL_MS)];
        case Failure(e) => negCached := negCached[uid := Entry(e, now + NEG_CACHE_TTL_MS)];
      }
      works := works[uid := works[uid][id := works[uid][id].(finished := Some(Finish(now, outcome)))]];
      inflight := inflight - {uid};
    }
  }

  // ---------------------------------------------------------------- runs of one slot

  datatype Event = Caller(now: nat) | Ends(outcome: Outcome, now: nat)

  /** Events in time order on a clock that never goes back; work ends only while it is in flight. */
  ghost predicate IsRun(evs: seq<Event>)
    decreases |evs|, 0
  {
    evs != [] ==>
      var before, ev := evs[..|evs| - 1], evs[|evs| - 1];
      && IsRun(before)
      && (before != [] ==> before[|before| - 1].now <= ev.now)
      && (ev.Ends? ==> After(before).inflight.Some?)
  }

  ghost function After(evs: seq<Event>): (s: Slot)
    requires IsRun(evs)
    ensures s.inflight.Some? ==> s.inflight.value < |s.works|
    decreases |evs|, 1
  {
    if evs == [] then EMPTY_SLOT
    else
      var before, ev := evs[..|evs| - 1], evs[|evs| - 1];
      match ev
      case Caller(now) => Call(After(before), now).0
      case Ends(outcome, now) => Complete(After(before), outcome, now)
  }

  /** The time between the end of one piece of work and the earliest start of the next. */
  function Pause(outcome: Outcome): nat {
    if outcome.Success? then CACHE_TTL_MS else NEG_CACHE_TTL_MS
  }

  /** Work never overlaps, and each next piece starts a full pause after the one before it ended. */
  ghost predicate Spaced(works: seq<Work>) {
    forall i :: 0 <= i < |works| - 1 ==>
      && works[i].finished.Some?
      && works[i].started <= works[i].finished.value.at
      && works[i + 1].started >= works[i].finished.value.at + Pause(works[i].finished.value.outcome)
  }

  function LastTime(evs: seq<Event>): nat {
    if evs == [] then 0 else evs[|evs| - 1].now
  }

  ghost predicate Inv(s: Slot, now: nat) {
    && Spaced(s.works)
    && (s.inflight.Some? ==> s.works != [] && s.inflight.value == |s.works| - 1)
    && (s.works == [] ==> s == EMPTY_SLOT)
    && (s.works != [] ==>
          var last := s.works[|s.works| - 1];
          && last.started <= now
          && (last.finished.None? <==> s.inflight.Some?)
          && (last.finished.None? ==> !Live(s.cached, last.started) && !Live(s.negCached, last.started))
          && (last.finished.Some? ==>
                var f := last.finished.value;
                && last.started <= f.at <= now
                && match f.outcome
                   case Success(r) => s.cached == Some(Entry(r, f.at + CACHE_TTL_MS)) && !Live(s.negCached, last.started)
                   case Failure(e) => s.negCached == Some(Entry(e, f.at + NEG_CACHE_TTL_MS)) && !Live(s.cached, last.started)))
  }

  lemma CallKeeps(s: Slot, then_: nat, now: nat)
    requires Inv(s, then_) && then_ <= now
    ensures Inv(Call(s, now).0, now)
  {
  }

  lemma CompleteKeeps(s: Slot, then_: nat, outcome: Outcome, now: nat)
    requires Inv(s, then_) && then_ <= now && s.inflight.Some?
    ensures Inv(Complete(s, outcome, now), now)
  {
    var r := Complete(s, outcome, now);
    assert forall i :: 0 <= i < |s.works| - 1 ==> r.works[i] == s.works[i];
  }

  lemma {:induction false} RunKeeps(evs: seq<Event>)
    requires IsRun(evs)
    ensures Inv(After(evs), LastTime(evs))
    decreases |evs|
  {
    hide Inv;
    if evs == [] {
      assert Inv(EMPTY_SLOT, 0) by { EmptyInv(); }
    } else {
      var before, ev := evs[..|evs| - 1], evs[|evs| - 1];
      RunKeeps(before);
      match ev
      case Caller(now) => CallKeeps(After(before), LastTime(before), now);
      case Ends(outcome, now) => CompleteKeeps(After(before), LastTime(before), outcome, now);
    }
  }

  lemma EmptyInv()
    ensures Inv(EMPTY_SLOT, 0)
  {
  }

  /** In every run: at most one piece of work is unfinished, and it is the one in flight; the next
      starts at least 30 s after a success and 15 s after a failure. */
  lemma LookupsAreSpaced(evs: seq<Event>)
    requires IsRun(evs)
    ensures var s := After(evs);
            && Spaced(s.works)
            && (forall i :: 0 <= i < |s.works| && s.works[i].finished.None? ==> s.inflight == Some(i) && i == |s.works| - 1)
            && (forall i, j :: 0 <= i < j < |s.works| ==>
                  s.works[i].finished.Some? && s.works[i].finished.value.at + Pause(s.works[i].finished.value.outcome) <= s.works[j].started)
  {
    RunKeeps(evs);
    var s := After(evs);
    forall i, j | 0 <= i < j < |s.works|
      ensures s.works[i].finished.Some? && s.works[i].finished.value.at + Pause(s.works[i].finished.value.outcome) <= s.works[j].started
    {
      SpacedTransitive(s.works, i, j);
    }
  }

  lemma {:induction false} SpacedTransitive(works: seq<Work>, i: nat, j: nat)
    requires Spaced(works) && i < j < |works|
    ensures works[i].finished.Some?
    ensures works[i].finished.value.at + Pause(works[i].finished.value.outcome) <= works[j].started
    decreases j
  {
    if j > i + 1 {
      SpacedTransitive(works, i, j - 1);
      assert works[j - 1].started <= works[j].started;
    }
  }

  /** Every caller is served by the newest work: from a cache only while the entry that work left is
      live, by sharing only work that is running, and by new work only when neither applies. */
  lemma RepliesComeFromNewestWork(evs: seq<Event>, now: nat)
    requires IsRun(evs) && LastTime(evs) <= now
    ensures var s := After(evs); var newest := |s.works| - 1;
            match Call(s, now).1
            case FromCache(r) =>
              && newest >= 0 && s.works[newest].finished.Some?
              && s.works[newest].finished.value.outcome == Success(r)
              && now < s.works[newest].finished.value.at + CACHE_TTL_MS
            case FromNegCache(e) =>
              && newest >= 0 && s.works[newest].finished.Some?
              && s.works[newest].finished.value.outcome == Failure(e)
              && now < s.works[newest].finished.value.at + NEG_CACHE_TTL_MS
            case Shared(w) => w == newest && s.works[w].finished.None?
            case Started(w) =>
              && w == newest + 1
              && (newest >= 0 ==>
                    s.works[newest].finished.Some?
                    && now >= s.works[newest].finished.value.at + Pause(s.works[newest].finished.value.outcome))
  {
    RunKeeps(evs);
  }

  /** The outcome callers of a piece of work await is set once: later events neither change nor drop it. */
  lemma OutcomesArePermanent(evs: seq<Event>, ev: Event)
    requires IsRun(evs + [ev])
    ensures var s, r := After((evs + [ev])[..|evs|]), After(evs + [ev]);
            && |s.works| <= |r.works|
            && (forall i :: 0 <= i < |s.works| ==> r.works[i].started == s.works[i].started)
            && (forall i :: 0 <= i < |s.works| && s.works[i].finished.Some? ==> r.works[i] == s.works[i])
  {
    RunKeeps((evs + [ev])[..|evs|]);
  }

  /** The spacing in milliseconds, for any two pieces of work on a UID in any run. */
  lemma SpacingInNumbers(evs: seq<Event>, i: nat, j: nat)
    requires IsRun(evs) && i < j < |After(evs).works|
    ensures var w, next := After(evs).works[i], After(evs).works[j];
            && w.finished.Some?
            && (w.finished.value.outcome.Success? ==> next.started >= w.finished.value.at + 30_000)
            && (w.finished.value.outcome.Failure? ==> next.started >= w.finished.value.at + 15_000)
  {
    LookupsAreSpaced(evs);
  }

  /** And no later than asked for: a caller finds new work started exactly if nothing runs and the pause
      after the newest work is over. */
  lemma StartsAsSoonAsAllowed(evs: seq<Event>, now: nat)
    requires IsRun(evs) && LastTime(evs) <= now
    ensures var s := After(evs); var newest := |s.works| - 1;
            Call(s, now).1.Started? <==>
              newest < 0 ||
              (s.works[newest].finished.Some? &&
               var f := s.works[newest].finished.value;
               now >= f.at + (if f.outcome.Success? then 30_000 else 15_000))
  {
    RunKeeps(evs);
  }
}
