/** The dialog table of a SIP device (SipClient/Device.cpp), each event taken as one atomic step. */
module SipSessions {

  datatype PlayMode = Realtime | Playback | Download

  /** Where the media goes: no two live sessions may share it. */
  datatype Target = Target(ip: string, port: int, channel: string)

  class Session {
    const did: int
    const target: Target
    const mode: PlayMode
    const playbackStream: string
    var used: bool
    var starts: nat
    var loads: nat
    var stops: nat

    constructor (did: int, target: Target, mode: PlayMode, playbackStream: string)
      ensures this.did == did && this.target == target && this.mode == mode && this.playbackStream == playbackStream
      ensures !used && starts == 0 && loads == 0 && stops == 0
    {
      this.did, this.target, this.mode, this.playbackStream := did, target, mode, playbackStream;
      used, starts, loads, stops := false, 0, 0, 0;
    }

    /** Ask the media server to send; setting the flag is left to the caller. */
    method Start()
      modifies this`starts
      ensures starts == old(starts) + 1
    {
      starts := starts + 1;
    }
  }

  /** What an INVITE turns out to ask for, or the status it is refused with. */
  datatype Offer = Refused(status: int) | Offer(target: Target, mode: PlayMode, playbackStream: string)

  datatype Event =
    | Invite(did: int, offer: Offer)
    | Ack(did: int)
    | Bye(did: int)
    | Cancel(did: int)
    | StreamChanged(app: string, stream: string, regist: bool)

  /** What of a device the events decide: its table, the sessions marked used, and those a BYE has removed. */
  datatype Shape = Shape(sessions: map<int, Session>, used: set<Session>, closed: set<Session>)

  /** What one event does to it. */
  ghost predicate Step(closeAll: bool, s: Shape, e: Event, t: Shape) {
    match e
    case Invite(did, offer) =>
      t == s.(sessions := t.sessions) && Invited(s.sessions, did, offer, t.sessions)
    case Ack(did) =>
      var live := did in s.sessions && s.sessions[did].mode == Realtime;
      t == s.(used := s.used + if live then {s.sessions[did]} else {})
    case Bye(did) =>
      && t == s.(sessions := if closeAll then map[] else s.sessions - {did}, closed := t.closed)
      && t.closed == s.closed + set d | d in s.sessions && d !in t.sessions :: s.sessions[d]
    case Cancel(did) => t == s.(sessions := s.sessions - {did})
    case StreamChanged(app, stream, regist) =>
      if app != "record" then t == s
      else if regist then t == s.(used := t.used) && s.used <= t.used && StartsOne(s, stream, t.used - s.used)
      else t == s.(sessions := t.sessions) && DropsOne(s.sessions, stream, t.sessions)
  }

  /** One session playing the stream is taken out, if there is any. */
  ghost predicate DropsOne(before: map<int, Session>, stream: string, after: map<int, Session>) {
    if exists d :: d in before && before[d].playbackStream == stream
    then exists d :: d in before && before[d].playbackStream == stream && after == before - {d}
    else after == before
  }

  /** The hit is one session that waits for the stream, if there is any. */
  ghost predicate StartsOne(s: Shape, stream: string, hit: set<Session>) {
    if exists d :: d in s.sessions && Waits(s, d, stream)
    then exists d :: d in s.sessions && Waits(s, d, stream) && hit == {s.sessions[d]}
    else hit == {}
  }

  /** `s` was in the table `before` and is no longer in `now`. */
  ghost predicate Removed(s: Session, before: map<int, Session>, now: map<int, Session>) {
    s.did in before && before[s.did] == s && s.did !in now
  }

  ghost predicate Waits(s: Shape, d: int, stream: string)
    requires d in s.sessions
  {
    s.sessions[d].playbackStream == stream && s.sessions[d] !in s.used
  }

  /** An offer is entered exactly when its dialog is new and no session has its target. */
  ghost predicate Invited(before: map<int, Session>, did: int, offer: Offer, after: map<int, Session>) {
    if did in before || offer.Refused? || exists d :: d in before && before[d].target == offer.target
    then after == before
    else
      && did in after && after - {did} == before && after[did].target == offer.target && after[did].mode == offer.mode
      && after[did].playbackStream == offer.playbackStream
  }

  class Device {
    const closeAllWhenBye: bool
    var sessions: map<int, Session>
    ghost var ever: set<Session>
    ghost var closed: set<Session>

    /**
     Sessions once created are remembered in `ever`, so that what holds of them holds of removed ones too;
     those a BYE has removed are in `closed`. They and no others have been stopped.
     */
    ghost predicate Valid()
      reads this, ever
    {
      && (forall did :: did in sessions ==> sessions[did] in ever && sessions[did].did == did)
      && (forall d, e :: d in sessions && e in sessions && d != e ==> sessions[d].target != sessions[e].target)
      && (forall s :: s in ever ==> s.starts == if s.used then 1 else 0)
      && (forall s :: s in ever ==> s.stops == if s in closed then 1 else 0)
      && (forall did :: did in sessions ==> sessions[did] !in closed)
      && closed <= ever
    }

    ghost function View(): Shape
      reads this, ever
    {
      Shape(sessions, (set s | s in ever && s.used), closed)
    }

    constructor (closeAllWhenBye: bool)
      ensures Valid() && sessions == map[] && ever == {} && closed == {} && this.closeAllWhenBye == closeAllWhenBye
    {
      this.closeAllWhenBye := closeAllWhenBye;
      sessions, ever, closed := map[], {}, {};
    }

    /** Nothing about the sessions in `ss` changes but for those in `but`. */
    twostate predicate Untouched(ss: set<Session>, new but: set<Session>)
      reads ss
    {
      forall s :: s in ss && s !in but ==>
        s.used == old(s.used) && s.starts == old(s.starts) && s.loads == old(s.loads) && s.stops == old(s.stops)
    }

    /** A known dialog is ignored, a taken target is busy (483); otherwise the session is entered and accepted. */
    method OnCallInvite(did: int, offer: Offer) returns (response: int)
      requires Valid()
      modifies this
      ensures Valid() && Untouched(old(ever), {})
      ensures old(ever) <= ever && fresh(ever - old(ever)) && closed == old(closed)
      ensures did in old(sessions) ==> response == 0
      ensures did !in old(sessions) && offer.Refused? ==> response == offer.status
      ensures did !in old(sessions) && offer.Offer? ==>
        response == if exists d :: d in old(sessions) && old(sessions)[d].target == offer.target then 483 else 200
      ensures did !in old(sessions) && offer.Offer? && response == 200 ==>
        && did in sessions && sessions - {did} == old(sessions) && sessions[did] !in old(ever)
        && sessions[did].target == offer.target && sessions[did].mode == offer.mode && !sessions[did].used
        && sessions[did].playbackStream == offer.playbackStream
      ensures !(did !in old(sessions) && offer.Offer? && response == 200) ==> sessions == old(sessions)
      ensures Step(closeAllWhenBye, old(View()), Invite(did, offer), View())
    {
      if did in sessions { return 0; }
      match offer
      case Refused(status) => response := status;
      case Offer(target, mode, stream) =>
        var session := new Session(did, target, mode, stream);
        if exists d :: d in sessions && sessions[d].target == target { return 483; }
        sessions := sessions[did := session];
        ever := ever + {session};
        response := 200;
    }

    /** The first ACK starts a live stream; for recordings every ACK before the start loads the file. */
    method OnCallAck(did: int)
      requires Valid()
      modifies ever
      ensures Valid() && Untouched(ever, if did in sessions then {sessions[did]} else {})
      ensures did in sessions ==> var s := sessions[did];
        && s.stops == old(s.stops)
        && s.used == (old(s.used) || s.mode == Realtime)
        && s.starts == old(s.starts) + (if !old(s.used) && s.mode == Realtime then 1 else 0)
        && s.loads == old(s.loads) + (if !old(s.used) && s.mode != Realtime then 1 else 0)
      ensures Step(closeAllWhenBye, old(View()), Ack(did), View())
    {
      if did in sessions {
        var s := sessions[did];
        if !s.used {
          if s.mode == Realtime {
            s.Start();
            s.used := true;
          } else {
            s.loads := s.loads + 1;
          }
        }
      }
    }

    /** Each session removed from the table has been stopped once; nothing else about any session changed. */
    twostate predicate StoppedRemoved(ss: set<Session>, before: map<int, Session>)
      reads this, ss
    {
      forall s :: s in ss ==>
        && s.used == old(s.used) && s.starts == old(s.starts) && s.loads == old(s.loads)
        && s.stops == old(s.stops) + if Removed(s, before, sessions) then 1 else 0
    }

    /** Stopping sessions changes nothing but how often they have been stopped. */
    twostate predicate OnlyStops(ss: set<Session>)
      reads ss
    {
      forall s :: s in ss ==> s.used == old(s.used) && s.starts == old(s.starts) && s.loads == old(s.loads)
    }

    /** A BYE stops and removes its session, or all of them. */
    method OnCallClosed(did: int)
      requires Valid()
      modifies this`sessions, this`closed, ever
      ensures Valid() && StoppedRemoved(ever, old(sessions))
      ensures forall s :: s in closed <==> s in old(closed) || Removed(s, old(sessions), sessions)
      ensures sessions == if closeAllWhenBye then map[] else old(sessions) - {did}
      ensures Step(closeAllWhenBye, old(View()), Bye(did), View())
    {
      if closeAllWhenBye {
        CloseAll();
      } else if did in sessions {
        StopAndRemove(did);
      }
    }

    method CloseAll()
      requires Valid()
      modifies this`sessions, this`closed, ever
      ensures Valid() && OnlyStops(ever) && sessions == map[]
      ensures forall s :: s in closed <==> s in old(closed) || Removed(s, old(sessions), sessions)
    {
      ghost var all := sessions;
      while sessions.Keys != {}
        invariant Valid() && OnlyStops(ever)
        invariant sessions.Keys <= all.Keys && (forall d :: d in sessions ==> sessions[d] == all[d])
        invariant forall d :: d in all ==> all[d].did == d
        invariant forall s :: s in closed <==> s in old(closed) || Removed(s, all, sessions)
        decreases |sessions.Keys|
      {
        var d :| d in sessions.Keys;
        StopAndRemove(d);
      }
    }

    method StopAndRemove(did: int)
      requires Valid() && did in sessions
      modifies this`sessions, this`closed, ever
      ensures Valid() && OnlyStops(ever)
      ensures sessions == old(sessions) - {did} && closed == old(closed) + {old(sessions)[did]}
    {
      sessions[did].stops := sessions[did].stops + 1;
      closed := closed + {sessions[did]};
      sessions := sessions - {did};
    }

    /** A CANCEL removes its session without stopping it. */
    method OnCallCancelled(did: int)
      requires Valid()
      modifies this`sessions
      ensures Valid() && sessions == old(sessions) - {did}
      ensures Step(closeAllWhenBye, old(View()), Cancel(did), View())
    {
      if did in sessions { sessions := sessions - {did}; }
    }

    /**
     The media server reports a recording. Gone: one session playing it is dropped. There: one session
     waiting for it is started.
     */
    method OnStreamChanged(app: string, stream: string, regist: bool) returns (hit: set<Session>)
      requires Valid()
      modifies this`sessions, ever
      ensures Valid() && |hit| <= 1 && Started(ever, hit)
      ensures Step(closeAllWhenBye, old(View()), StreamChanged(app, stream, regist), View())
      ensures hit == View().used - old(View()).used
    {
      hit := {};
      if !regist && app == "record" { DropPlaying(stream); }
      if regist && app == "record" { hit := StartWaiting(stream); }
    }

    /** Those hit have been started, for the first time, and nothing else about any session changed. */
    twostate predicate Started(ss: set<Session>, new hit: set<Session>)
      reads ss
    {
      && Untouched(ss, hit)
      && (forall s :: s in hit ==> s in ss && !old(s.used) && s.used && s.starts == old(s.starts) + 1)
      && (forall s :: s in hit ==> s in ss && s.loads == old(s.loads) && s.stops == old(s.stops))
    }

    method DropPlaying(stream: string)
      requires Valid()
      modifies this`sessions
      ensures Valid() && DropsOne(old(sessions), stream, sessions)
    {
      if exists d :: d in sessions && sessions[d].playbackStream == stream {
        var d :| d in sessions && sessions[d].playbackStream == stream;
        sessions := sessions - {d};
      }
    }

    method StartWaiting(stream: string) returns (hit: set<Session>)
      requires Valid()
      modifies ever
      ensures Valid() && |hit| <= 1 && Started(ever, hit)
      ensures StartsOne(old(View()), stream, hit)
    {
      hit := {};
      ghost var before := View();
      assert forall d :: d in sessions ==> (Waits(before, d, stream) <==> Awaits(sessions[d], stream));
      if exists d :: d in sessions && Awaits(sessions[d], stream) {
        var d :| d in sessions && Awaits(sessions[d], stream);
        sessions[d].Start();
        sessions[d].used := true;
        hit := {sessions[d]};
      }
    }

    method Handle(e: Event)
      requires Valid()
      modifies this, ever
      ensures Valid() && old(ever) <= ever && fresh(ever - old(ever))
      ensures Step(closeAllWhenBye, old(View()), e, View())
    {
      match e
      case Invite(did, offer) => var _ := OnCallInvite(did, offer);
      case Ack(did) => OnCallAck(did);
      case Bye(did) => OnCallClosed(did);
      case Cancel(did) => OnCallCancelled(did);
      case StreamChanged(app, stream, regist) => var _ := OnStreamChanged(app, stream, regist);
    }
  }

  predicate Awaits(s: Session, stream: string)
    reads s
  {
    s.playbackStream == stream && !s.used
  }

  /** From an empty table, one step for each event. */
  ghost predicate IsTrace(closeAll: bool, events: seq<Event>, trace: seq<Shape>) {
    && |trace| == |events| + 1 && trace[0] == Shape(map[], {}, {})
    && forall i :: 0 <= i < |events| ==> Step(closeAll, trace[i], events[i], trace[i + 1])
  }

  ghost predicate DistinctTargets(table: map<int, Session>) {
    forall d, e :: d in table && e in table && d != e ==> table[d].target != table[e].target
  }

  /** No step lets two live sessions share a target, whatever the other sessions are. */
  lemma StepKeepsTargets(closeAll: bool, s: Shape, e: Event, t: Shape)
    requires Step(closeAll, s, e, t) && DistinctTargets(s.sessions)
    ensures DistinctTargets(t.sessions)
  {
    if e.Invite? && t.sessions != s.sessions {
      forall d | d in t.sessions && d != e.did ensures d in s.sessions && t.sessions[d] == s.sessions[d] {
        assert d in t.sessions - {e.did};
      }
    }
  }

  /** So over a whole trace targets stay distinct; and nothing but a BYE stops a session. */
  lemma {:induction false} TraceKeepsTargets(closeAll: bool, events: seq<Event>, trace: seq<Shape>, i: nat)
    requires IsTrace(closeAll, events, trace) && i <= |events|
    ensures DistinctTargets(trace[i].sessions)
    ensures forall k :: 0 <= k < i && !events[k].Bye? ==> trace[k + 1].closed == trace[k].closed
  {
    if i > 0 {
      TraceKeepsTargets(closeAll, events, trace, i - 1);
      StepKeepsTargets(closeAll, trace[i - 1], events[i - 1], trace[i]);
    }
  }

  /**
   Every interleaving of events on a new device: keys are dialog ids, live targets are distinct, and no
   session, live or removed, was ever started more than once, nor started without being marked used. Stopped,
   once each, are exactly the sessions a BYE removed. Each event takes the table one step on.
   */
  method HandleAll(closeAllWhenBye: bool, events: seq<Event>) returns (device: Device, ghost trace: seq<Shape>)
    ensures fresh(device) && device.Valid()
    ensures forall did :: did in device.sessions ==> device.sessions[did].did == did
    ensures forall s :: s in device.ever ==> s.starts <= 1 && (s.starts == 1 <==> s.used)
    ensures forall s :: s in device.ever ==> s.stops <= 1 && (s.stops == 1 <==> s in device.closed)
    ensures forall did :: did in device.sessions ==> device.sessions[did].stops == 0
    ensures IsTrace(closeAllWhenBye, events, trace) && trace[|events|] == device.View()
  {
    device := new Device(closeAllWhenBye);
    trace := [device.View()];
    for i := 0 to |events|
      invariant fresh(device) && fresh(device.ever) && device.Valid() && device.closeAllWhenBye == closeAllWhenBye
      invariant |trace| == i + 1 && trace[i] == device.View() && IsTrace(closeAllWhenBye, events[..i], trace)
    {
      device.Handle(events[i]);
      trace := trace + [device.View()];
    }
    assert events[..|events|] == events;
  }

  /** So a session that was started and then cancelled goes on sending, and nothing knows it any more. */
  method CancelledWhileSendingExample() returns (device: Device, session: Session)
    ensures fresh(device) && device.Valid() && session in device.ever
    ensures session.starts == 1 && session.stops == 0 && device.sessions == map[]
  {
    device := new Device(false);
    var response := device.OnCallInvite(1, Offer(Target("", 0, ""), Realtime, ""));
    session := device.sessions[1];
    device.OnCallAck(1);
    device.OnCallCancelled(1);
  }

  /** Nor is one stopped whose recording has ended; there the source counts on the media server having released it. */
  method EndedWithoutStopExample() returns (device: Device, session: Session)
    ensures fresh(device) && device.Valid() && session in device.ever
    ensures session.starts == 1 && session.stops == 0 && device.sessions == map[]
  {
    device, session := PlayedRecordingExample();
    assert device.sessions[1].playbackStream == "a";
    var hit := device.OnStreamChanged("record", "a", false);
  }

  /** A recording, invited and then announced by the media server: it plays. */
  method PlayedRecordingExample() returns (device: Device, session: Session)
    ensures fresh(device) && fresh(device.ever) && device.Valid() && session in device.ever
    ensures device.sessions == map[1 := session] && session.playbackStream == "a"
    ensures session.starts == 1 && session.stops == 0
  {
    device := new Device(false);
    var response := device.OnCallInvite(1, Offer(Target("", 0, ""), Playback, "a"));
    session := device.sessions[1];
    assert device.sessions == map[1 := session] by {
      assert forall d :: d in device.sessions && d != 1 ==> d in device.sessions - {1};
    }
    assert Awaits(device.sessions[1], "a");
    var hit := device.OnStreamChanged("record", "a", true);
    ghost var s :| s in hit;
    assert s == session;
  }
}
