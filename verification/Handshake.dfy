/** The device-initiated P2P handshake (`p2pDeviceInitiated` in `src/bcudp/BcUdpStream.ts`): wait for
    D2C_T, answer with C2D_A until D2C_CFM arrives or the timeout fires. Parsed XML is a datatype. */
module Handshake {
  import opened ByteStrings

  datatype D2cT = D2cT(sid: int, conn: Option<string>, cid: int, did: int)

  datatype D2cCfm = D2cCfm(sid: int, conn: Option<string>, cid: Option<int>, did: Option<int>)

  datatype Address = Address(host: string, port: int)

  datatype Params = Params(sid: int, cid: int, conn: string, expectHost: string)

  /** A discovery message with whatever the two parsers make of its XML, a datagram that is not a
      decodable discovery packet, the resend timer or the overall timeout. */
  datatype Event =
    | Message(tid: nat, t: Option<D2cT>, cfm: Option<D2cCfm>, from: Address)
    | Garbage
    | ResendTick
    | Timeout

  datatype Accept = Accept(tid: nat, sid: int, conn: string, cid: int, did: int, to: Address)

  datatype Outcome =
    | Pending
    | Resolved(did: int, remote: Address, tid: nat)
    | TimedOut

  datatype Phase = WaitT | WaitCfm

  /** The closure's variables; `listening` and `resending` say which callbacks are still installed. */
  datatype Session = Session(
    phase: Phase,
    did: Option<int>,
    tid: Option<nat>,
    remote: Option<Address>,
    listening: bool,
    resending: bool,
    outcome: Outcome)

  const START := Session(WaitT, None, None, None, true, false, Pending)

  predicate HasConn(conn: Option<string>, want: string) {
    (match conn case Some(c) => c case None => "") == want
  }

  /** A D2C_T for this attempt from the expected host. The port is not checked. */
  predicate MatchesT(params: Params, ev: Event) {
    && ev.Message? && ev.t.Some?
    && ev.t.value.cid == params.cid
    && ev.t.value.sid == params.sid
    && HasConn(ev.t.value.conn, params.conn)
    && ev.from.host == params.expectHost
  }

  /** A D2C_CFM for this attempt and this device, from anywhere. */
  predicate MatchesCfm(params: Params, did: int, ev: Event) {
    && ev.Message? && ev.cfm.Some?
    && ev.cfm.value.cid == Some(params.cid)
    && ev.cfm.value.sid == params.sid
    && ev.cfm.value.did == Some(did)
    && HasConn(ev.cfm.value.conn, params.conn)
  }

  // ---------------------------------------------------------------- one event

  function SendA(params: Params, s: Session): seq<Accept> {
    if s.phase == WaitCfm && s.did.Some? && s.tid.Some? && s.remote.Some? then
      [Accept(s.tid.value, params.sid, params.conn, params.cid, s.did.value, s.remote.value)]
    else []
  }

  function Settle(s: Session, outcome: Outcome): Session {
    s.(listening := false, resending := false, outcome := outcome)
  }

  function Step(params: Params, s: Session, ev: Event): (Session, seq<Accept>) {
    match ev
    case Garbage => (s, [])
    case Timeout => if s.outcome == Pending then (Settle(s, TimedOut), []) else (s, [])
    case ResendTick => if s.resending then (s, SendA(params, s)) else (s, [])
    case Message(tid, t, cfm, from) =>
      if !s.listening then (s, [])
      else if s.phase == WaitT then
        if MatchesT(params, ev) then
          var s' := s.(did := Some(t.value.did), tid := Some(tid), remote := Some(from), phase := WaitCfm,
                       resending := true);
          (s', SendA(params, s'))
        else (s, [])
      else if s.did.Some? && MatchesCfm(params, s.did.value, ev) then
        (Settle(s, Resolved(s.did.value, from, s.tid.GetOr(0))), [])
      else (s, [])
  }

  // ---------------------------------------------------------------- the closure as an object

  class DeviceInitiated {
    const params: Params
    var phase: Phase
    var did: Option<int>
    var tid: Option<nat>
    var remote: Option<Address>
    var listening: bool
    var resending: bool
    var outcome: Outcome

    ghost function View(): Session
      reads this
    {
      Session(phase, did, tid, remote, listening, resending, outcome)
    }

    constructor (params: Params)
      ensures View() == START && this.params == params
    {
      this.params := params;
      phase, did, tid, remote := WaitT, None, None, None;
      listening, resending, outcome := true, false, Pending;
    }

    method SendAccept() returns (out: seq<Accept>)
      ensures out == SendA(params, View())
    {
      if phase != WaitCfm || did == None || tid == None || remote == None {
        return [];
      }
      out := [Accept(tid.value, params.sid, params.conn, params.cid, did.value, remote.value)];
    }

    method Cleanup()
      modifies this`listening, this`resending
      ensures !listening && !resending
    {
      listening := false;
      resending := false;
    }

    method OnMessage(ev: Event) returns (out: seq<Accept>)
      requires ev.Message?
      modifies this
      ensures (View(), out) == Step(params, old(View()), ev)
    {
      out := [];
      if !listening { return; }
      if phase == WaitT {
        if ev.t == None { return; }
        var dt := ev.t.value;
        if dt.cid != params.cid { return; }
        if dt.sid != params.sid { return; }
        if (match dt.conn case Some(c) => c case None => "") != params.conn { return; }
        if ev.from.host != params.expectHost { return; }
        did := Some(dt.did);
        tid := Some(ev.tid);
        remote := Some(ev.from);
        phase := WaitCfm;
        out := SendAccept();
        resending := true;
        return;
      }
      if ev.cfm == None { return; }
      var c := ev.cfm.value;
      if c.cid != Some(params.cid) { return; }
      if c.sid != params.sid { return; }
      if c.did == None || did == None { return; }
      if c.did.value != did.value { return; }
      if (match c.conn case Some(x) => x case None => "") != params.conn { return; }
      Cleanup();
      outcome := Resolved(did.value, ev.from, tid.GetOr(0));
    }

    method OnResendTick() returns (out: seq<Accept>)
      ensures (View(), out) == Step(params, View(), ResendTick)
    {
      out := [];
      if resending {
        out := SendAccept();
      }
    }

    method OnTimeout()
      modifies this
      ensures View() == Step(params, old(View()), Timeout).0
    {
      if outcome == Pending {
        Cleanup();
        outcome := TimedOut;
      }
    }
  }

  // ---------------------------------------------------------------- whole traces

  /** The session after a trace. */
  function After(params: Params, evs: seq<Event>): Session
    decreases |evs|
  {
    if evs == [] then START else Step(params, After(params, evs[..|evs| - 1]), evs[|evs| - 1]).0
  }

  /** What event `k` of a trace makes the session send. */
  function SentAt(params: Params, evs: seq<Event>, k: nat): seq<Accept>
    requires k < |evs|
  {
    Step(params, After(params, evs[..k]), evs[k]).1
  }

  /** `i` is the first matching D2C_T. */
  ghost predicate FirstT(params: Params, evs: seq<Event>, i: nat) {
    && i < |evs| && MatchesT(params, evs[i])
    && forall k :: 0 <= k < i ==> !MatchesT(params, evs[k])
  }

  /** Before position `n`, nothing ended the handshake that started with the D2C_T at `i`. */
  ghost predicate OpenUntil(params: Params, evs: seq<Event>, i: nat, n: nat) {
    && i < n <= |evs| && FirstT(params, evs, i)
    && (forall k :: 0 <= k < n ==> evs[k] != Timeout)
    && (forall k :: i < k < n ==> !MatchesCfm(params, evs[i].t.value.did, evs[k]))
  }

  /** The handshake that started with the D2C_T at `i` is confirmed by the D2C_CFM at `j`. */
  ghost predicate ConfirmedAt(params: Params, evs: seq<Event>, i: nat, j: nat) {
    && j < |evs| && OpenUntil(params, evs, i, j)
    && MatchesCfm(params, evs[i].t.value.did, evs[j])
  }

  ghost predicate TimedOutAt(params: Params, evs: seq<Event>, k: nat) {
    && k < |evs| && evs[k] == Timeout
    && (forall m :: 0 <= m < k ==> evs[m] != Timeout)
    && (forall i, j :: 0 <= i < j < k ==> !ConfirmedAt(params, evs, i, j))
  }

  /** What each kind of state says about the trace that led to it. */
  ghost predicate Explains(params: Params, s: Session, evs: seq<Event>) {
    && (s.listening <==> s.outcome == Pending)
    && (s.resending <==> s.outcome == Pending && s.phase == WaitCfm)
    && match s.outcome
       case Pending =>
         if s.phase == WaitT then
           && s == START
           && forall k :: 0 <= k < |evs| ==> evs[k] != Timeout && !MatchesT(params, evs[k])
         else
           exists i: nat :: OpenUntil(params, evs, i, |evs|) && Remembers(s, evs[i])
       case Resolved(did, remote, tid) =>
         exists i: nat, j: nat :: ConfirmedAt(params, evs, i, j) && s.outcome == Resolution(evs, i, j)
       case TimedOut => exists k: nat :: TimedOutAt(params, evs, k)
  }

  ghost predicate Remembers(s: Session, ev: Event) {
    && ev.Message? && ev.t.Some?
    && s.did == Some(ev.t.value.did) && s.tid == Some(ev.tid) && s.remote == Some(ev.from)
  }

  function Resolution(evs: seq<Event>, i: nat, j: nat): Outcome
    requires i < |evs| && j < |evs|
  {
    if evs[i].Message? && evs[i].t.Some? && evs[j].Message?
    then Resolved(evs[i].t.value.did, evs[j].from, evs[i].tid)
    else Pending
  }

  lemma OpenExtends(params: Params, evs: seq<Event>, ev: Event, i: nat)
    requires OpenUntil(params, evs, i, |evs|)
    requires ev != Timeout && !MatchesCfm(params, evs[i].t.value.did, ev)
    ensures OpenUntil(params, evs + [ev], i, |evs| + 1)
  {
    PrefixFacts(params, evs, ev);
  }

  /** Positions inside a trace keep their meaning when the trace grows. */
  lemma PrefixFacts(params: Params, evs: seq<Event>, ev: Event)
    ensures forall i: nat :: i < |evs| ==> (FirstT(params, evs, i) <==> FirstT(params, evs + [ev], i))
    ensures forall i: nat, n: nat :: n <= |evs| ==> (OpenUntil(params, evs, i, n) <==> OpenUntil(params, evs + [ev], i, n))
    ensures forall i: nat, j: nat :: j < |evs| ==> (ConfirmedAt(params, evs, i, j) <==> ConfirmedAt(params, evs + [ev], i, j))
    ensures forall k: nat :: TimedOutAt(params, evs, k) ==> TimedOutAt(params, evs + [ev], k)
  {
    assert forall k :: 0 <= k < |evs| ==> (evs + [ev])[k] == evs[k];
  }

  lemma WaitTExtends(params: Params, s: Session, evs: seq<Event>, ev: Event)
    requires Explains(params, s, evs) && s.outcome == Pending && s.phase == WaitT
    ensures Explains(params, Step(params, s, ev).0, evs + [ev])
  {
    var all, n := evs + [ev], |evs|;
    assert forall k :: 0 <= k < n ==> all[k] == evs[k];
    assert all[n] == ev;
    if ev == Timeout {
      assert TimedOutAt(params, all, n);
    } else if MatchesT(params, ev) {
      assert FirstT(params, all, n) && OpenUntil(params, all, n, n + 1);
      assert Remembers(Step(params, s, ev).0, all[n]);
    }
  }

  lemma WaitCfmExtends(params: Params, s: Session, evs: seq<Event>, ev: Event)
    requires Explains(params, s, evs) && s.outcome == Pending && s.phase == WaitCfm
    ensures Explains(params, Step(params, s, ev).0, evs + [ev])
  {
    var all, n := evs + [ev], |evs|;
    PrefixFacts(params, evs, ev);
    var i: nat :| OpenUntil(params, evs, i, n) && Remembers(s, evs[i]);
    assert all[i] == evs[i] && all[n] == ev && OpenUntil(params, all, i, n);
    if ev == Timeout {
      forall i': nat, j: nat | i' < j < n ensures !ConfirmedAt(params, all, i', j) {
        assert FirstT(params, all, i') ==> i' == i;
      }
      assert TimedOutAt(params, all, n);
    } else if MatchesCfm(params, evs[i].t.value.did, ev) {
      assert ConfirmedAt(params, all, i, n);
    } else {
      OpenExtends(params, evs, ev, i);
      assert Step(params, s, ev).0 == s;
    }
  }

  lemma SettledExtends(params: Params, s: Session, evs: seq<Event>, ev: Event)
    requires Explains(params, s, evs) && s.outcome != Pending
    ensures Step(params, s, ev) == (s, [])
    ensures Explains(params, s, evs + [ev])
  {
    PrefixFacts(params, evs, ev);
    if s.outcome.Resolved? {
      var i: nat, j: nat :| ConfirmedAt(params, evs, i, j) && s.outcome == Resolution(evs, i, j);
      assert ConfirmedAt(params, evs + [ev], i, j);
      assert (evs + [ev])[i] == evs[i] && (evs + [ev])[j] == evs[j];
    }
  }

  lemma {:induction false} AfterExplains(params: Params, evs: seq<Event>)
    ensures Explains(params, After(params, evs), evs)
    decreases |evs|
  {
    hide Explains, Step;
    if evs == [] {
      StartExplains(params);
    } else {
      var before, ev := evs[..|evs| - 1], evs[|evs| - 1];
      var s := After(params, before);
      AfterExplains(params, before);
      assert before + [ev] == evs;
      if s.outcome != Pending {
        SettledExtends(params, s, before, ev);
      } else if s.phase == WaitT {
        WaitTExtends(params, s, before, ev);
      } else {
        WaitCfmExtends(params, s, before, ev);
      }
    }
  }

  lemma StartExplains(params: Params)
    ensures Explains(params, START, [])
  {
  }

  /** The promise resolves exactly when the first D2C_T that matches is followed, before any timeout,
      by a matching D2C_CFM for the same device; it carries that device, that T's transaction and the
      confirmation's sender. */
  lemma ResolvesIff(params: Params, evs: seq<Event>)
    ensures After(params, evs).outcome.Resolved? <==> exists i: nat, j: nat :: ConfirmedAt(params, evs, i, j)
    ensures forall i: nat, j: nat :: ConfirmedAt(params, evs, i, j) ==>
              After(params, evs).outcome == Resolved(evs[i].t.value.did, evs[j].from, evs[i].tid)
  {
    hide After;
    AfterExplains(params, evs);
    var s := After(params, evs);
    forall i: nat, j: nat | ConfirmedAt(params, evs, i, j) ensures s.outcome == Resolution(evs, i, j) {
      match s.outcome
      case Pending => OnlyOneFirst(params, evs);
      case Resolved(_, _, _) => OnlyOneConfirmation(params, evs, i, j);
      case TimedOut =>
        var k: nat :| TimedOutAt(params, evs, k);
    }
  }

  lemma OnlyOneFirst(params: Params, evs: seq<Event>)
    ensures forall i: nat, j: nat :: FirstT(params, evs, i) && FirstT(params, evs, j) ==> i == j
  {
  }

  lemma OnlyOneConfirmation(params: Params, evs: seq<Event>, i: nat, j: nat)
    requires ConfirmedAt(params, evs, i, j)
    ensures forall i': nat, j': nat :: ConfirmedAt(params, evs, i', j') ==> i' == i && j' == j
  {
    forall i': nat, j': nat | ConfirmedAt(params, evs, i', j') ensures i' == i && j' == j {
      OnlyOneFirst(params, evs);
    }
  }

  /** It is rejected exactly when the timeout fires with no confirmation before it. */
  lemma TimesOutIff(params: Params, evs: seq<Event>)
    ensures After(params, evs).outcome.TimedOut? <==> exists k: nat :: TimedOutAt(params, evs, k)
  {
    hide After;
    AfterExplains(params, evs);
    ResolvesIff(params, evs);
    var s := After(params, evs);
  }

  /** Once settled, nothing changes any more and nothing is sent. */
  lemma SettledIsFinal(params: Params, evs: seq<Event>, k: nat)
    requires k < |evs| && After(params, evs[..k]).outcome != Pending
    ensures After(params, evs[..k + 1]) == After(params, evs[..k])
    ensures SentAt(params, evs, k) == []
  {
    hide Step;
    AfterExplains(params, evs[..k]);
    SettledExtends(params, After(params, evs[..k]), evs[..k], evs[k]);
    assert evs[..k + 1][..k] == evs[..k];
  }

  /** Exactly what is sent when: a C2D_A for the device and transaction of the first matching D2C_T, to
      its sender, at that T and at each resend tick while the handshake it opened is still open. */
  lemma SendsExactly(params: Params, evs: seq<Event>, k: nat)
    requires k < |evs|
    ensures SentAt(params, evs, k) == [] ||
            exists i: nat :: i <= k && SendIsDue(params, evs, i, k) && SentAt(params, evs, k) == [AcceptFor(params, evs[i])]
    ensures forall i: nat :: i <= k && SendIsDue(params, evs, i, k) ==>
              SentAt(params, evs, k) == [AcceptFor(params, evs[i])]
  {
    hide After;
    var before := evs[..k];
    var s := After(params, before);
    AfterExplains(params, before);
    PrefixIsSame(params, evs, k);
    if s.outcome == Pending {
      if s.phase == WaitCfm {
        var i: nat :| OpenUntil(params, before, i, k) && Remembers(s, before[i]);
        assert OpenUntil(params, evs, i, k) && evs[i] == before[i];
        OnlyOneFirst(params, evs);
        if evs[k] == ResendTick {
          assert SendIsDue(params, evs, i, k);
        }
      } else if MatchesT(params, evs[k]) {
        assert forall m :: 0 <= m < k ==> before[m] == evs[m];
        assert SendIsDue(params, evs, k, k);
      }
    } else {
      SettledSendsNothing(params, evs, k);
    }
  }

  ghost predicate SendIsDue(params: Params, evs: seq<Event>, i: nat, k: nat)
    requires i <= k < |evs|
  {
    if i == k then FirstT(params, evs, k) && forall m :: 0 <= m < k ==> evs[m] != Timeout
    else evs[k] == ResendTick && OpenUntil(params, evs, i, k)
  }

  function AcceptFor(params: Params, ev: Event): Accept {
    if ev.Message? && ev.t.Some?
    then Accept(ev.tid, params.sid, params.conn, params.cid, ev.t.value.did, ev.from)
    else Accept(0, 0, "", 0, 0, Address("", 0))
  }

  lemma PrefixIsSame(params: Params, evs: seq<Event>, k: nat)
    requires k < |evs|
    ensures forall i: nat :: OpenUntil(params, evs[..k], i, k) <==> OpenUntil(params, evs, i, k)
  {
    assert forall m :: 0 <= m < k ==> evs[..k][m] == evs[m];
  }

  lemma SettledSendsNothing(params: Params, evs: seq<Event>, k: nat)
    requires k < |evs| && After(params, evs[..k]).outcome != Pending
    ensures SentAt(params, evs, k) == []
    ensures forall i: nat :: i <= k ==> !SendIsDue(params, evs, i, k)
  {
    hide Step, After;
    var before := evs[..k];
    SettledIsFinal(params, evs, k);
    ResolvesIff(params, before);
    TimesOutIff(params, before);
    assert forall m :: 0 <= m < k ==> before[m] == evs[m];
    forall i: nat | i <= k ensures !SendIsDue(params, evs, i, k) {
      if After(params, before).outcome.Resolved? {
        var i': nat, j': nat :| ConfirmedAt(params, before, i', j');
        assert FirstT(params, evs, i');
        OnlyOneFirst(params, evs);
        assert evs[j'] == before[j'];
      } else {
        var m: nat :| TimedOutAt(params, before, m);
        assert evs[m] == Timeout;
      }
    }
  }

  // ---------------------------------------------------------------- the same in the messages' own fields

  /** The connection kind of a message, where a missing one counts as empty. */
  predicate KindIs(conn: Option<string>, kind: string) {
    conn == Some(kind) || (conn == None && kind == "")
  }

  /** A D2C_T with the attempt's sid, cid and kind, from the expected host; any port. */
  predicate IsOurT(params: Params, ev: Event) {
    match ev
    case Message(_, Some(D2cT(sid, conn, cid, _)), _, Address(host, _)) =>
      sid == params.sid && cid == params.cid && KindIs(conn, params.conn) && host == params.expectHost
    case _ => false
  }

  /** A D2C_CFM with the attempt's sid, cid and kind and the given did; from anywhere. */
  predicate IsOurCfm(params: Params, did: int, ev: Event) {
    match ev
    case Message(_, _, Some(D2cCfm(sid, conn, Some(cid), Some(d))), _) =>
      sid == params.sid && cid == params.cid && d == did && KindIs(conn, params.conn)
    case _ => false
  }

  lemma MatchesAreFields(params: Params, did: int, ev: Event)
    ensures MatchesT(params, ev) <==> IsOurT(params, ev)
    ensures MatchesCfm(params, did, ev) <==> IsOurCfm(params, did, ev)
  {
  }

  /** A resolved handshake saw such a D2C_T and later such a D2C_CFM with the same did, and returns that
      did, the T's transaction and the confirmation's sender. */
  lemma ResolvedOnlyByOurs(params: Params, evs: seq<Event>)
    requires After(params, evs).outcome.Resolved?
    ensures exists i: nat, j: nat :: i < j < |evs| && IsOurT(params, evs[i]) && IsOurCfm(params, evs[i].t.value.did, evs[j])
              && After(params, evs).outcome == Resolved(evs[i].t.value.did, evs[j].from, evs[i].tid)
  {
    hide After, MatchesT, MatchesCfm, IsOurT, IsOurCfm;
    ResolvesIff(params, evs);
    var i: nat, j: nat :| ConfirmedAt(params, evs, i, j);
    MatchesAreFields(params, 0, evs[i]);
    TIsMessage(params, evs[i]);
    MatchesAreFields(params, evs[i].t.value.did, evs[j]);
  }

  lemma TIsMessage(params: Params, ev: Event)
    requires IsOurT(params, ev)
    ensures ev.Message? && ev.t.Some?
  {
  }

  /** Every C2D_A answers such a D2C_T that came at or before it: its transaction, its did, its sender,
      which is the expected host. */
  lemma SendsOnlyToOurs(params: Params, evs: seq<Event>, k: nat, a: Accept)
    requires k < |evs| && a in SentAt(params, evs, k)
    ensures a.to.host == params.expectHost
    ensures exists i: nat :: i <= k && IsOurT(params, evs[i])
              && a == Accept(evs[i].tid, params.sid, params.conn, params.cid, evs[i].t.value.did, evs[i].from)
  {
    hide After, SentAt, MatchesT, MatchesCfm;
    SendsExactly(params, evs, k);
    var i: nat :| i <= k && SendIsDue(params, evs, i, k) && SentAt(params, evs, k) == [AcceptFor(params, evs[i])];
    MatchesAreFields(params, 0, evs[i]);
  }

  /** While waiting for D2C_T, a message is taken exactly if it is such a T, and then it is answered. */
  lemma TakesExactlyOurT(params: Params, evs: seq<Event>, ev: Event)
    requires After(params, evs).outcome == Pending && After(params, evs).phase == WaitT && ev.Message?
    ensures var all := evs + [ev]; var r := After(params, all);
            && r.outcome == Pending
            && (r.phase == WaitCfm <==> IsOurT(params, ev))
            && (IsOurT(params, ev) ==>
                  && r.did == Some(ev.t.value.did) && r.tid == Some(ev.tid) && r.remote == Some(ev.from)
                  && SentAt(params, all, |evs|) ==
                     [Accept(ev.tid, params.sid, params.conn, params.cid, ev.t.value.did, ev.from)])
            && (!IsOurT(params, ev) ==> r == After(params, evs) && SentAt(params, all, |evs|) == [])
  {
    var all := evs + [ev];
    assert all[..|evs|] == evs && all[|all| - 1] == ev;
    AfterExplains(params, evs);
    MatchesAreFields(params, 0, ev);
  }

  /** After a T with some did, a message ends the wait exactly if it is such a CFM for that did. */
  lemma TakesExactlyOurCfm(params: Params, evs: seq<Event>, ev: Event)
    requires After(params, evs).outcome == Pending && After(params, evs).phase == WaitCfm && ev.Message?
    ensures var s, r := After(params, evs), After(params, evs + [ev]);
            && s.did.Some? && s.tid.Some?
            && (IsOurCfm(params, s.did.value, ev) ==> r.outcome == Resolved(s.did.value, ev.from, s.tid.value))
            && (!IsOurCfm(params, s.did.value, ev) ==> r == s)
  {
    var all := evs + [ev];
    assert all[..|evs|] == evs && all[|all| - 1] == ev;
    AfterExplains(params, evs);
    MatchesAreFields(params, After(params, evs).did.GetOr(0), ev);
  }
}
